/** Best-fit search in the tree bins. */
module Searching {
  import opened Sizes
  import opened Tries
  import opened Links
  import opened TreeBins
  import opened Bins

  /** Least size along the path that always takes the left child if there is
      one, and the right child otherwise. */
  function Least(t: Trie): nat
    requires t.Node?
  {
    var c := if t.l.Node? then t.l else t.r;
    if c.Nil? || t.size <= Least(c) then t.size else Least(c)
  }

  /** The smallest chunk of a trie lies on its leftmost path. */
  lemma {:induction false} LeastIsMin(t: Trie, lo: nat, k: nat)
    requires t.Node? && Spans(t, lo, k)
    ensures Least(t) in SizeSet(t)
    ensures forall z :: z in SizeSet(t) ==> Least(t) <= z
  {
    if t.l.Node? {
      LeastIsMin(t.l, lo, k - 1);
      forall z | z in SizeSet(t.r) ensures Least(t.l) <= z { LeftBelowRight(t, lo, k, Least(t.l), z); }
    } else if t.r.Node? {
      LeastIsMin(t.r, lo + Pow2(k - 1), k - 1);
    }
  }

  /** The candidate so far and its remainder; `rsize` starts at `-nb`. */
  ghost predicate Candidate(v: nat, rsize: nat, nb: nat, sizes: map<nat, nat>) {
    if v == NULL then rsize == SIZE_T_RANGE - nb
    else v in sizes && nb <= sizes[v] < SIZE_T_RANGE && rsize == sizes[v] - nb
  }

  ghost predicate Beats(v: nat, sizes: map<nat, nat>, z: nat) {
    v != NULL && v in sizes && sizes[v] <= z
  }

  /** The comparison of the unsigned remainders picks the smaller fit and
      never a chunk that is too small. */
  lemma Compare(v: nat, rsize: nat, nb: nat, sizes: map<nat, nat>, a: nat)
    requires Candidate(v, rsize, nb, sizes) && 0 < nb < SIZE_T_RANGE
    requires a != NULL && a in sizes && sizes[a] < SIZE_T_RANGE
    ensures var trem := Sub64(sizes[a], nb);
      if trem < rsize then
        nb <= sizes[a] && Candidate(a, trem, nb, sizes) && forall z :: Beats(v, sizes, z) ==> Beats(a, sizes, z)
      else nb <= sizes[a] ==> Beats(v, sizes, sizes[a])
  {
  }

  /** Every fit of the bin's trie is still ahead in `sub`, or no better than
      the candidate, or no better than the least of the deepest untaken right
      subtree `rst`; everything in `rst` fits and exceeds what is in `sub`. */
  ghost predicate Ahead(t: Trie, sub: Trie, rst: Trie, v: nat, nb: nat, sizes: map<nat, nat>) {
    && (forall z :: z in SizeSet(t) && nb <= z ==>
         z in SizeSet(sub) || Beats(v, sizes, z) || (rst.Node? && Least(rst) <= z))
    && (forall y, z :: y in SizeSet(sub) && z in SizeSet(rst) ==> y < z)
    && (forall z :: z in SizeSet(rst) ==> nb < z)
  }

  /** One step of the first loop, after the node's own size was compared. */
  lemma AheadStep(t: Trie, sub: Trie, rst: Trie, v: nat, nb: nat, sizes: map<nat, nat>, lo: nat, k: nat, w: nat,
      rst': Trie)
    requires sub.Node? && Spans(sub, lo, k) && WalkWord(w, nb, lo, k) && sub.size != nb
    requires Ahead(t, sub, rst, v, nb, sizes)
    requires nb <= sub.size ==> Beats(v, sizes, sub.size)
    requires rst' == if sub.r.Node? && TopBit(w) == 0 then sub.r else rst
    ensures Ahead(t, ChildOf(sub, TopBit(w)), rst', v, nb, sizes)
  {
    hide WalkWord, TopBit, Least, Beats;
    WalkSides(sub, lo, k, nb, w);
    var c := ChildOf(sub, TopBit(w));
    SizesSplit(sub);
    if TopBit(w) == 0 && sub.r.Node? {
      forall y, z | y in SizeSet(sub.l) && z in SizeSet(sub.r) ensures y < z { LeftBelowRight(sub, lo, k, y, z); }
      LeastIsMin(sub.r, lo + Pow2(k - 1), k - 1);
      if rst.Node? { LeastInSizes(rst); }
    }
    hide SizeSet, Spans;
    forall z | z in SizeSet(t) && nb <= z && z !in SizeSet(c) && !Beats(v, sizes, z)
      ensures rst'.Node? && Least(rst') <= z
    {
    }
  }

  lemma SizesSplit(sub: Trie)
    requires sub.Node?
    ensures SizeSet(sub) == {sub.size} + SizeSet(sub.l) + SizeSet(sub.r)
    ensures sub.r.Nil? ==> SizeSet(sub.r) == {}
  {
  }

  lemma LeastInSizes(t: Trie)
    requires t.Node?
    ensures Least(t) in SizeSet(t)
  {
  }

  lemma WalkSides(sub: Trie, lo: nat, k: nat, nb: nat, w: nat)
    requires sub.Node? && Spans(sub, lo, k) && WalkWord(w, nb, lo, k) && sub.size != nb
    ensures k > 0
    ensures TopBit(w) == 0 ==> forall z :: z in SizeSet(sub.r) ==> nb < z
    ensures TopBit(w) != 0 ==> forall z :: z in SizeSet(sub.l) ==> z < nb
  {
    hide TopBit, Shl1, Align;
    assert k > 0;
    WalkStep(nb, lo, k, w);
    forall z | z in SizeSet(sub.l) ensures z < lo + Pow2(k - 1) { SizesInInterval(sub.l, lo, k - 1, z); }
    forall z | z in SizeSet(sub.r) ensures z >= lo + Pow2(k - 1) { SizesInInterval(sub.r, lo + Pow2(k - 1), k - 1, z); }
  }

  /** Every fit in the bins is no better than the candidate or than the least
      of the subtree still to be followed to the left. */
  ghost predicate Remaining(cur: Trie, v: nat, nb: nat, sizes: map<nat, nat>) {
    && (forall a :: a in sizes && nb <= sizes[a] ==>
         Beats(v, sizes, sizes[a]) || (cur.Node? && Least(cur) <= sizes[a]))
    && (|| (forall z :: z in SizeSet(cur) ==> nb <= z)
        || (forall a :: a in sizes && nb <= sizes[a] ==> Beats(v, sizes, sizes[a])))
  }

  function LeftmostChild(t: Trie): Trie
    requires t.Node?
  {
    if t.l.Node? then t.l else t.r
  }

  lemma RemainingStep(cur: Trie, v: nat, v': nat, nb: nat, sizes: map<nat, nat>)
    requires cur.Node? && Remaining(cur, v, nb, sizes)
    requires forall z :: Beats(v, sizes, z) ==> Beats(v', sizes, z)
    requires nb <= cur.size ==> Beats(v', sizes, cur.size)
    ensures Remaining(LeftmostChild(cur), v', nb, sizes)
  {
    SizesSplit(cur);
    var c := LeftmostChild(cur);
    assert forall z :: z in SizeSet(c) ==> z in SizeSet(cur);
    assert cur.size in SizeSet(cur);
    assert Least(cur) == if c.Nil? || cur.size <= Least(c) then cur.size else Least(c);
  }

  /** A chunk of a later bin is larger than a size of an earlier bin. */
  lemma LaterBin(f: FreeLists, a: nat, z: nat)
    requires |f.small| == NSMALLBINS && |f.trees| == NTREEBINS && Placed(f)
    requires a in f.bins && MIN_LARGE <= f.bins[a] && MIN_LARGE <= z < INDEX_LIMIT
    ensures TreeIndex(z) < TreeIndex(f.bins[a]) ==> z < f.bins[a]
    ensures TreeIndex(f.bins[a]) < TreeIndex(z) ==> f.bins[a] < z
    ensures a in Addrs(f.trees[TreeIndex(f.bins[a])])
  {
    hide TreeIndex;
    assert InBin(f, a, f.bins[a]);
    if TreeIndex(z) < TreeIndex(f.bins[a]) { TreeIndexMonotone(z, f.bins[a]); }
    if TreeIndex(f.bins[a]) < TreeIndex(z) { TreeIndexMonotone(f.bins[a], z); }
  }

  /** A size of a bin's trie belongs to a chunk of that bin. */
  lemma SizeOfBin(s: BinState, f: FreeLists, i: nat, z: nat)
    requires BinsOk(s, f) && i < NTREEBINS && z in SizeSet(f.trees[i])
    ensures MIN_LARGE <= z < INDEX_LIMIT && TreeIndex(z) == i
  {
    hide TreeIndex;
    TreeBinAt(s, f, i);
    var a := SizeHasChunk(f.trees[i], f.bins, z);
  }

  lemma ChunkOfBin(s: BinState, f: FreeLists, a: nat, i: nat)
    requires BinsOk(s, f) && a in f.bins && MIN_LARGE <= f.bins[a] && TreeIndex(f.bins[a]) == i
    ensures a in Addrs(f.trees[i]) && f.bins[a] in SizeSet(f.trees[i])
  {
    hide TreeIndex;
    TreeBinAt(s, f, i);
    assert InBin(f, a, f.bins[a]);
    FitsSize(f.trees[i], f.bins, a);
  }

  /** The first loop ended at an empty child: the untaken right subtree is
      where the best fit is, unless the candidate already is. */
  lemma AfterWalk(s: BinState, f: FreeLists, i: nat, rst: Trie, v: nat, rsize: nat, nb: nat)
    requires BinsOk(s, f) && MIN_LARGE <= nb < INDEX_LIMIT && i == TreeIndex(nb)
    requires Ahead(f.trees[i], Nil, rst, v, nb, f.bins) && Candidate(v, rsize, nb, f.bins)
    requires v != NULL ==> v in Addrs(f.trees[i])
    requires rst.Node? ==> Least(rst) in SizeSet(rst) && SizeSet(rst) <= SizeSet(f.trees[i])
    ensures v != NULL || rst.Node? ==> Remaining(rst, v, nb, f.bins)
    ensures v == NULL && rst.Nil? ==> forall z :: z in SizeSet(f.trees[i]) ==> z < nb
  {
    hide TreeIndex, Least;
    TreeBinAt(s, f, i);
    if v != NULL || rst.Node? {
      forall a | a in f.bins && nb <= f.bins[a] && !Beats(v, f.bins, f.bins[a])
        ensures rst.Node? && Least(rst) <= f.bins[a]
      {
        LaterBin(f, a, nb);
        if TreeIndex(f.bins[a]) == i {
          ChunkOfBin(s, f, a, i);
        } else if v != NULL {
          LaterBin(f, a, f.bins[v]);
        } else {
          SizeOfBin(s, f, i, Least(rst));
          LaterBin(f, a, Least(rst));
        }
      }
    }
  }

  /** The bin of the request holds no fit: the next non-empty bin does. */
  lemma NextBin(s: BinState, f: FreeLists, i: nat, j: nat, nb: nat)
    requires BinsOk(s, f) && MIN_LARGE <= nb < INDEX_LIMIT && i == TreeIndex(nb)
    requires forall z :: z in SizeSet(f.trees[i]) ==> z < nb
    requires i < j <= NTREEBINS && forall b :: i < b < j ==> b !in s.treemap
    requires j < NTREEBINS ==> j in s.treemap
    ensures Remaining(if j < NTREEBINS then f.trees[j] else Nil, NULL, nb, f.bins)
  {
    hide TreeIndex, Least;
    var cur := if j < NTREEBINS then f.trees[j] else Nil;
    if j < NTREEBINS {
      TreeBinAt(s, f, j);
      LeastIsMin(cur, BinLow(j), BinBits(j));
    }
    forall a | a in f.bins && nb <= f.bins[a] ensures cur.Node? && Least(cur) <= f.bins[a] {
      LaterBin(f, a, nb);
      var b := TreeIndex(f.bins[a]);
      if b == i { ChunkOfBin(s, f, a, i); }
      ChunkOfBin(s, f, a, b);
      TreeBinAt(s, f, b);
      assert b >= j;
      if b > j {
        SizeOfBin(s, f, j, Least(cur));
        LaterBin(f, a, Least(cur));
      }
    }
    forall z | z in SizeSet(cur) ensures nb <= z {
      SizeOfBin(s, f, j, z);
      TreeIndexMonotone(nb, z);
    }
  }

  /** A subtree of a bin as the search holds it: pointer, links and sizes. */
  ghost predicate Held(m: LinkMap, cur: Trie, p: nat, up: nat, i: nat, sizes: map<nat, nat>) {
    && p == Root(cur) && (cur.Nil? <==> p == NULL) && (cur.Node? ==> up != NULL)
    && Linked(m, cur, up, i) && Fits(cur, sizes) && Apart(cur)
    && (forall a :: a in Addrs(cur) ==> a in sizes && sizes[a] < INDEX_LIMIT && a != NULL)
  }

  lemma HeldNode(m: LinkMap, cur: Trie, p: nat, up: nat, i: nat, sizes: map<nat, nat>)
    requires Held(m, cur, p, up, i, sizes) && cur.Node?
    ensures p in m && p in sizes && sizes[p] == cur.size && p in Addrs(cur) && sizes[p] < INDEX_LIMIT
    ensures m[p].up != NULL
    ensures Held(m, cur.l, m[p].c0, p, i, sizes) && Held(m, cur.r, m[p].c1, p, i, sizes)
    ensures m[p].c1 != NULL ==> m[p].c0 != m[p].c1
  {
    RootIn(m, cur, up, i);
    if cur.l.Node? { RootIn(m, cur.l, p, i); LinkedAddr(m, cur.l, p, i, Root(cur.l)); }
    if cur.r.Node? { RootIn(m, cur.r, p, i); LinkedAddr(m, cur.r, p, i, Root(cur.r)); }
  }

  lemma HeldRoot(s: BinState, f: FreeLists, i: nat)
    requires BinsOk(s, f) && i < NTREEBINS
    ensures |s.treebins| == NTREEBINS && |f.trees| == NTREEBINS
    ensures Held(s.link, f.trees[i], s.treebins[i], TreeHdr(i), i, f.bins)
  {
    hide TreeIndex, Spans, Apart, BinLow, BinBits;
    TreeBinAt(s, f, i);
    var t := f.trees[i];
    if t.Node? { RootIn(s.link, t, TreeHdr(i), i); }
    forall a | a in Addrs(t) ensures a != NULL { LinkedAddr(s.link, t, TreeHdr(i), i, a); }
  }

  /** The state of the walk down the request's bin: the node `t` of subtree
      `cur`, and the deepest untaken right subtree `rst` at `rp`. */
  ghost predicate AtNode(m: LinkMap, tree: Trie, lo: nat, k: nat, i: nat, sizes: map<nat, nat>,
      cur: Trie, t: nat, up: nat, rst: Trie, rp: nat, rup: nat, nb: nat, w: nat)
  {
    && Held(m, cur, t, up, i, sizes) && Held(m, rst, rp, rup, i, sizes)
    && SizeSet(cur) <= SizeSet(tree) && SizeSet(rst) <= SizeSet(tree) && Addrs(cur) <= Addrs(tree)
    && (nb < INDEX_LIMIT && cur.Node? ==> Walk(tree, lo, k, t, nb, w) && SubAt(tree, t) == cur)
  }

  lemma NodeStart(s: BinState, f: FreeLists, i: nat, nb: nat, w: nat)
    requires BinsOk(s, f) && i == TreeIndex(nb) && MIN_LARGE <= nb && f.trees[i].Node? && w == Shl(nb, LeftShift(i))
    ensures AtNode(s.link, f.trees[i], BinLow(i), BinBits(i), i, f.bins,
      f.trees[i], s.treebins[i], TreeHdr(i), Nil, NULL, 0, nb, w)
    ensures Ahead(f.trees[i], f.trees[i], Nil, NULL, nb, f.bins)
  {
    hide BinsOk, TreeIndex, BinLow, BinBits, Shl, LeftShift, Walk, Spans;
    HeldRoot(s, f, i);
    TreeBinAt(s, f, i);
    if nb < INDEX_LIMIT {
      BinHolds(nb, i);
      WalkBegin(f.trees[i], i, nb);
      RootSub(f.trees[i]);
    }
  }

  lemma RootSub(t: Trie)
    requires t.Node? && t.ring != []
    ensures Root(t) in Addrs(t) && SubAt(t, Root(t)) == t
  {
    assert t.ring[0] in Members(t.ring);
  }

  /** Pointers after one step: the right child is set and not the one taken when a right
      subtree is left untaken. */
  lemma NodeStep(m: LinkMap, tree: Trie, lo: nat, k: nat, i: nat, sizes: map<nat, nat>,
      cur: Trie, t: nat, up: nat, rst: Trie, rp: nat, rup: nat, nb: nat, w: nat,
      c: Trie, next: nat, rst': Trie, rp': nat, rup': nat)
    requires AtNode(m, tree, lo, k, i, sizes, cur, t, up, rst, rp, rup, nb, w) && cur.Node?
    requires TreeOk(m, tree, i, sizes, lo, k) && (nb < INDEX_LIMIT ==> cur.size != nb)
    requires c == ChildOf(cur, TopBit(w)) && t in m && next == if TopBit(w) == 0 then m[t].c0 else m[t].c1
    requires if m[t].c1 != NULL && m[t].c1 != next then rst' == cur.r && rp' == m[t].c1 && rup' == t
             else rst' == rst && rp' == rp && rup' == rup
    ensures AtNode(m, tree, lo, k, i, sizes, c, next, t, rst', rp', rup', nb, Shl1(w))
    ensures rst' == if cur.r.Node? && TopBit(w) == 0 then cur.r else rst
    ensures c.Nil? <==> next == NULL
  {
    hide Walk, TopBit, Shl1, TreeOk, SubAt;
    HeldNode(m, cur, t, up, i, sizes);
    SizesSplit(cur);
    AddrsSplit(cur);
    assert Held(m, cur.l, m[t].c0, t, i, sizes) && Held(m, cur.r, m[t].c1, t, i, sizes);
    if nb < INDEX_LIMIT && c.Node? { WalkDown(m, tree, i, sizes, lo, k, t, nb, w, c); }
  }

  lemma AddrsSplit(t: Trie)
    requires t.Node?
    ensures Addrs(t.l) <= Addrs(t) && Addrs(t.r) <= Addrs(t)
  {
  }

  lemma NodeAhead(m: LinkMap, tree: Trie, lo: nat, k: nat, i: nat, sizes: map<nat, nat>,
      cur: Trie, t: nat, up: nat, rst: Trie, rp: nat, rup: nat, nb: nat, w: nat, v: nat, rst': Trie)
    requires AtNode(m, tree, lo, k, i, sizes, cur, t, up, rst, rp, rup, nb, w) && cur.Node?
    requires TreeOk(m, tree, i, sizes, lo, k) && nb < INDEX_LIMIT && cur.size != nb
    requires Ahead(tree, cur, rst, v, nb, sizes) && (nb <= cur.size ==> Beats(v, sizes, cur.size))
    requires rst' == if cur.r.Node? && TopBit(w) == 0 then cur.r else rst
    ensures Ahead(tree, ChildOf(cur, TopBit(w)), rst', v, nb, sizes)
  {
    hide TopBit, Ahead, WalkWord;
    SubAtSpans(tree, t, lo, k);
    AheadStep(tree, cur, rst, v, nb, sizes, LoAt(tree, t, lo, k), KAt(tree, t, k), w, rst');
  }

  /** The comparison at the node either stops at an exact fit or leaves a
      candidate at least as good, and a node of another size. */
  lemma NodeCompare(tree: Trie, cur: Trie, rst: Trie, t: nat, v: nat, rsize: nat, v': nat, rsize': nat, nb: nat,
      sizes: map<nat, nat>)
    requires cur.Node? && t != NULL && t in sizes && sizes[t] == cur.size < INDEX_LIMIT
    requires Candidate(v, rsize, nb, sizes) && rsize != 0 && MIN_LARGE <= nb < SIZE_T_RANGE
    requires
      if Sub64(cur.size, nb) < rsize then v' == t && rsize' == Sub64(cur.size, nb) else v' == v && rsize' == rsize
    ensures Candidate(v', rsize', nb, sizes)
    ensures rsize' == 0 ==> Remaining(cur, v', nb, sizes)
    ensures rsize' != 0 ==> cur.size != nb
    ensures nb <= cur.size ==> Beats(v', sizes, cur.size)
    ensures forall z :: Beats(v, sizes, z) ==> Beats(v', sizes, z)
    ensures Ahead(tree, cur, rst, v, nb, sizes) ==> Ahead(tree, cur, rst, v', nb, sizes)
  {
    hide Least, SizeSet;
    Compare(v, rsize, nb, sizes, t);
    assert forall z :: Beats(v, sizes, z) ==> Beats(v', sizes, z);
    if rsize' == 0 { assert v' == t && sizes[v'] == nb; }
  }

  /** What the walk hands on to the descent. */
  lemma WalkDone(s: BinState, f: FreeLists, i: nat, rst: Trie, v: nat, rsize: nat, nb: nat)
    requires BinsOk(s, f) && i == TreeIndex(nb) && MIN_LARGE <= nb < SIZE_T_RANGE
    requires nb < INDEX_LIMIT ==> Ahead(f.trees[i], Nil, rst, v, nb, f.bins)
    requires Candidate(v, rsize, nb, f.bins) && (v != NULL ==> v in Addrs(f.trees[i]))
    requires SizeSet(rst) <= SizeSet(f.trees[i])
    ensures v != NULL || rst.Node? ==> Remaining(rst, v, nb, f.bins)
    ensures v == NULL && rst.Nil? && nb < INDEX_LIMIT ==> forall z :: z in SizeSet(f.trees[i]) ==> z < nb
  {
    hide TreeIndex, BinsOk;
    if nb < INDEX_LIMIT {
      if rst.Node? { LeastInSizes(rst); }
      AfterWalk(s, f, i, rst, v, rsize, nb);
    } else {
      NoFit(s, f, nb);
    }
  }

  lemma NoFit(s: BinState, f: FreeLists, nb: nat)
    requires BinsOk(s, f) && INDEX_LIMIT <= nb
    ensures forall a :: a in f.bins ==> f.bins[a] < nb
  {
  }

  lemma AtNodeParts(m: LinkMap, tree: Trie, lo: nat, k: nat, i: nat, sizes: map<nat, nat>,
      cur: Trie, t: nat, up: nat, rst: Trie, rp: nat, rup: nat, nb: nat, w: nat)
    requires AtNode(m, tree, lo, k, i, sizes, cur, t, up, rst, rp, rup, nb, w)
    ensures Held(m, cur, t, up, i, sizes) && Held(m, rst, rp, rup, i, sizes)
    ensures SizeSet(rst) <= SizeSet(tree) && Addrs(cur) <= Addrs(tree)
    ensures (cur.Node? <==> t != NULL) && (rst.Node? <==> rp != NULL)
  {
  }

  lemma CandidateStart(nb: nat, sizes: map<nat, nat>)
    requires 0 < nb < SIZE_T_RANGE
    ensures Candidate(NULL, Sub64(0, nb), nb, sizes)
  {
  }

  lemma HeldNull(m: LinkMap, cur: Trie, p: nat, up: nat, i: nat, sizes: map<nat, nat>)
    requires Held(m, cur, p, up, i, sizes)
    ensures cur.Nil? <==> p == NULL
  {
  }

  lemma HeldLeftmost(m: LinkMap, cur: Trie, p: nat, up: nat, i: nat, sizes: map<nat, nat>)
    requires Held(m, cur, p, up, i, sizes) && cur.Node?
    ensures p in m
    ensures Held(m, LeftmostChild(cur), if m[p].c0 != NULL then m[p].c0 else m[p].c1, p, i, sizes)
  {
    hide Linked, Apart, Fits, Addrs;
    HeldNode(m, cur, p, up, i, sizes);
  }

  lemma RemainingDone(cur: Trie, v: nat, nb: nat, sizes: map<nat, nat>)
    requires cur.Nil? && Remaining(cur, v, nb, sizes)
    ensures forall a :: a in sizes && nb <= sizes[a] ==> v != NULL && v in sizes && sizes[v] <= sizes[a]
  {
  }

  /** The request's bin gave nothing: the descent starts at the next bin. */
  lemma SearchNext(s: BinState, f: FreeLists, i: nat, j: nat, nb: nat)
    requires BinsOk(s, f) && MIN_LARGE <= nb < SIZE_T_RANGE && i == TreeIndex(nb)
    requires i < j <= NTREEBINS && (j < NTREEBINS ==> j in s.treemap) && forall b :: i < b < j ==> b !in s.treemap
    requires nb < INDEX_LIMIT ==> forall z :: z in SizeSet(f.trees[i]) ==> z < nb
    ensures Remaining(if j < NTREEBINS then f.trees[j] else Nil, NULL, nb, f.bins)
  {
    hide BinsOk, TreeIndex;
    if nb < INDEX_LIMIT {
      NextBin(s, f, i, j, nb);
    } else {
      NoFit(s, f, nb);
    }
  }

  lemma TreemapBound(s: BinState, f: FreeLists)
    requires BinsOk(s, f)
    ensures forall i :: i in s.treemap ==> i < NTREEBINS
  {
  }

  /** The first non-empty bin holds the smallest tree chunks. */
  lemma SmallestStart(s: BinState, f: FreeLists, i: nat)
    requires BinsOk(s, f) && i in s.treemap && i < NTREEBINS && forall b :: 0 <= b < i ==> b !in s.treemap
    ensures Remaining(f.trees[i], NULL, MIN_LARGE, f.bins)
  {
    hide TreeIndex, Least;
    TreeBinAt(s, f, i);
    var cur := f.trees[i];
    LeastIsMin(cur, BinLow(i), BinBits(i));
    SizeOfBin(s, f, i, Least(cur));
    forall a | a in f.bins && MIN_LARGE <= f.bins[a] ensures Least(cur) <= f.bins[a] {
      var b := TreeIndex(f.bins[a]);
      ChunkOfBin(s, f, a, b);
      TreeBinAt(s, f, b);
      if b > i { LaterBin(f, a, Least(cur)); }
    }
    forall z | z in SizeSet(cur) ensures MIN_LARGE <= z { SizeOfBin(s, f, i, z); }
  }

  lemma LargeSizes(s: BinState, f: FreeLists, i: nat)
    requires BinsOk(s, f) && i < NTREEBINS
    ensures forall z :: z in SizeSet(f.trees[i]) ==> MIN_LARGE <= z
  {
    hide BinsOk, TreeIndex;
    assert |f.trees| == NTREEBINS by { TreeBinAt(s, f, i); }
    forall z | z in SizeSet(f.trees[i]) ensures MIN_LARGE <= z { SizeOfBin(s, f, i, z); }
  }

  lemma NoSizes()
    ensures SizeSet(Nil) == {}
  {
  }
}
