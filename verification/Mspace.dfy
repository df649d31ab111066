/** The mspace allocator: bins, designated victim, top chunk and the boundary
    tags, with the operations that allocate and free chunks. */
module Mspaces {
  import opened Sizes
  import opened BinMaps
  import opened Tries
  import opened Links
  import opened TreeBins
  import opened Unlinking
  import opened Bins
  import opened Searching
  import opened Heap
  import opened Supplies

  class Mspace {
    var smallmap: set<nat>
    var treemap: set<nat>
    var treebins: seq<nat>
    var link: LinkMap
    var head: map<nat, Head>
    var foot: map<nat, Foot>
    var dv: nat
    var dvsize: nat
    var top: nat
    var topsize: nat

    ghost var first: nat
    ghost var chunks: ChunkMap
    ghost var free: FreeLists

    /** A fresh mspace, as `init_user_mstate` leaves it: self-linked small
        bins, no chunk but top. */
    constructor (mn: nat, size: nat)
      requires FIRST_CHUNK <= mn && mn % 16 == 0 && 0 < size < INDEX_LIMIT
      ensures Valid() && Live(chunks) == map[] && first == mn && top + topsize == mn + size
    {
      smallmap, treemap := {}, {};
      treebins := seq(NTREEBINS, i => NULL);
      head := map[mn := Head(size, false, true)];
      foot := map[];
      dv, dvsize, top, topsize := NULL, 0, mn, size;
      first, chunks := mn, map[];
      free := FreeLists(seq(NSMALLBINS, i => []), seq(NTREEBINS, i => Nil), map[]);
      link := map[];
      new;
      for i := 0 to NSMALLBINS
        invariant NULL !in link && forall j :: 0 <= j < i ==> SmallHdr(j) in link
        modifies this`link
      {
        link := link[SmallHdr(i) := Link(SmallHdr(i), SmallHdr(i), NULL, NULL, NULL, 0)];
      }
      EmptyBins(State());
    }

    ghost function State(): BinState
      reads this
    {
      BinState(link, smallmap, treemap, treebins)
    }

    ghost predicate BinsValid()
      reads this
    {
      BinsOk(State(), free)
    }

    ghost function Segment(): HeapState
      reads this
    {
      HeapState(chunks, head, foot, first, top, topsize)
    }

    ghost function Stock(): Supply
      reads this
    {
      Supply(free.small, free.bins, dv, dvsize, top, topsize)
    }

    ghost function Now(): Words
      reads this
    {
      Words(Segment(), link)
    }

    /** The allocator invariant: bins, boundary tags, and the agreement between
        the free chunks and the bins plus designated victim. */
    ghost predicate Valid()
      reads this
    {
      BinsValid() && HeapOk(Segment()) && FreeMatch(chunks, free.bins, dv, dvsize)
    }

    /** Binned chunks carry their size in the head word. */
    ghost predicate HeadsHold()
      reads this
    {
      forall a :: a in free.bins ==> a in head && head[a].size == free.bins[a]
    }

    // ----- small bins -----

    /** `insert_small_chunk`. */
    method InsertSmall(p: nat, s: nat)
      requires BinsValid() && p >= FIRST_CHUNK && p !in free.bins
      requires MIN_CHUNK <= s < MIN_LARGE && s % 8 == 0
      modifies this`link, this`smallmap, this`free
      ensures BinsValid()
      ensures free == WithSmall(old(free), s / 8, [p] + old(free.small[s / 8]), old(free.bins)[p := s])
      ensures LinkKept(old(link), link, old(free.bins), free.bins)
    {
      hide BinsOk, SmallOk, Inserted, WithFd, WithBk;
      var i := s / 8;
      ghost var s0 := State();
      SmallBinAt(s0, free, i);
      ghost var list := free.small[i];
      var b := SmallHdr(i);
      var f := b;
      if i !in smallmap {
        smallmap := smallmap + {i};
      } else {
        f := link[b].fd;
      }
      Touch(p);
      ghost var m := link;
      SmallRingInsert(s0.link, m, list, i, p, f);
      InsertStores(m, p, b, f);
      StoresKeep(m, b, p, f);
      link := WithFd(link, b, p);
      link := WithBk(link, f, p);
      link := WithFd(link, p, f);
      link := WithBk(link, p, b);
      assert smallmap == s0.smallmap + {i};
      SmallInserted(s0, free, link, i, p, [p] + list);
      free := WithSmall(free, i, [p] + list, free.bins[p := s]);
    }

    /** The link words of a chunk hold arbitrary user data until it is binned. */
    method Touch(p: nat)
      modifies this`link
      ensures link.Keys == old(link).Keys + {p} && forall b :: b in old(link) && b != p ==> link[b] == old(link)[b]
    {
      var garbage: Link := *;
      link := link[p := garbage];
    }

    /** `unlink_small_chunk`. */
    method UnlinkSmall(p: nat, s: nat)
      requires BinsValid() && p in free.bins && free.bins[p] == s < MIN_LARGE
      modifies this`link, this`smallmap, this`free
      ensures BinsValid() && free.bins == old(free.bins) - {p}
      ensures LinkKept(old(link), link, old(free.bins), free.bins)
    {
      hide BinsOk, SmallOk, WithFd, WithBk, Unlinked;
      var i := s / 8;
      ghost var s0 := State();
      ghost var pos := SmallBinOf(s0, free, p);
      SmallBinAt(s0, free, i);
      ghost var list := free.small[i];
      SmallRingRemove(link, list, i, pos);
      SmallNeighbours(link, list, i, pos);
      var f, b := link[p].fd, link[p].bk;
      UnlinkStores(link, p);
      if b == f {
        smallmap := smallmap - {i};
      } else {
        link := WithBk(link, f, b);
        link := WithFd(link, b, f);
      }
      assert smallmap == WithList(s0, link, i, Without(list, pos)).smallmap;
      SmallRemoved(s0, free, link, i, p, pos);
      free := WithSmall(free, i, Without(list, pos), free.bins - {p});
    }

    /** `unlink_first_small_chunk`, with `p` the first chunk of bin `i`. */
    method UnlinkFirstSmall(i: nat) returns (p: nat)
      requires BinsValid() && i < NSMALLBINS && i in smallmap
      modifies this`link, this`smallmap, this`free
      ensures |old(free.small)| == NSMALLBINS && old(free.small)[i] != []
      ensures BinsValid() && p in old(free.bins) && old(free.bins)[p] == 8 * i && p == old(free.small[i][0])
      ensures free.bins == old(free.bins) - {p}
      ensures LinkKept(old(link), link, old(free.bins), free.bins)
    {
      hide BinsOk, SmallOk, WithFd, WithBk, Unlinked;
      ghost var s0 := State();
      SmallBinAt(s0, free, i);
      ghost var list := free.small[i];
      SmallRingRemove(link, list, i, 0);
      SmallNeighbours(link, list, i, 0);
      var b := SmallHdr(i);
      p := link[b].fd;
      var f := link[p].fd;
      UnlinkStores(link, p);
      if b == f {
        smallmap := smallmap - {i};
      } else {
        link := WithBk(link, f, b);
        link := WithFd(link, b, f);
      }
      assert smallmap == WithList(s0, link, i, Without(list, 0)).smallmap;
      SmallRemoved(s0, free, link, i, p, 0);
      free := WithSmall(free, i, Without(list, 0), free.bins - {p});
    }

    // ----- tree bins -----

    /** `insert_large_chunk`: hang the chunk as a new leaf of its bin's trie,
        or chain it to the node that already has its size. */
    method InsertLarge(x: nat, s: nat)
      requires BinsValid() && HeadsHold() && x >= FIRST_CHUNK && x !in free.bins
      requires MIN_LARGE <= s < INDEX_LIMIT
      modifies this`link, this`treemap, this`treebins, this`free
      ensures BinsValid() && free.bins == old(free.bins)[x := s]
      ensures LinkKept(old(link), link, old(free.bins), free.bins)
    {
      hide BinsOk, TreeOk, TreeIndex, BinLow, BinBits, Addrs, LinkKept;
      var i := TreeIndex(s);
      ghost var s0, bins', lo, k := State(), free.bins[x := s], BinLow(i), BinBits(i);
      TreeBinAt(s0, free, i);
      BinHolds(s, i);
      ghost var t := free.trees[i];
      ClearNode(x, i);
      ghost var t';
      if i !in treemap {
        t' := StartTree(x, s, i, bins');
      } else {
        InsertReady(s0, free, link, i, x, s);
        t' := InsertInTree(x, s, i, t, bins');
        assert treemap == s0.treemap + {i};
      }
      TreeInserted(s0, free, link, i, x, s, t');
      assert State() == WithRoot(s0, link, i, t');
      free := WithTree(free, i, t', bins');
    }

    /** The new node has no children. */
    method ClearNode(x: nat, i: nat)
      requires x >= FIRST_CHUNK
      modifies this`link
      ensures Cleared(link, x, i) && link.Keys == old(link).Keys + {x}
      ensures forall b :: b in old(link) && b != x ==> link[b] == old(link)[b]
    {
      Touch(x);
      link := link[x := link[x].(index := i, c0 := NULL, c1 := NULL)];
    }

    /** The chunk becomes the only one of an unmarked bin. */
    method StartTree(x: nat, s: nat, i: nat, ghost sizes: map<nat, nat>) returns (ghost t': Trie)
      requires i < NTREEBINS && i < |treebins| && BinLow(i) <= s < BinLow(i) + Pow2(BinBits(i))
      requires Cleared(link, x, i) && x in sizes && sizes[x] == s
      modifies this`link, this`treemap, this`treebins
      ensures t' == Leaf(x, s) && Addrs(t') == {x} && TreeOk(link, t', i, sizes, BinLow(i), BinBits(i))
      ensures treemap == old(treemap) + {i} && treebins == old(treebins)[i := x]
      ensures link.Keys == old(link).Keys && forall b :: b in link && b != x ==> link[b] == old(link)[b]
    {
      hide TreeOk, BinLow, BinBits;
      treemap := treemap + {i};
      treebins := treebins[i := x];
      link := link[x := link[x].(up := TreeHdr(i), fd := x, bk := x)];
      InsertFirst(link, i, sizes, x, s, BinLow(i), BinBits(i));
      t' := Leaf(x, s);
    }

    /** The loop of `insert_large_chunk` down a non-empty tree. */
    method InsertInTree(x: nat, s: nat, i: nat, ghost t: Trie, ghost sizes: map<nat, nat>) returns (ghost t': Trie)
      requires i < NTREEBINS && i < |treebins| && BinLow(i) <= s < BinLow(i) + Pow2(BinBits(i))
      requires TreeOk(link, t, i, sizes, BinLow(i), BinBits(i)) && t.Node? && t.ring != [] && treebins[i] == Root(t)
      requires Cleared(link, x, i) && x !in Addrs(t) && x in sizes && sizes[x] == s
      requires forall a :: a in sizes && a != x ==> a in head && head[a].size == sizes[a]
      modifies this`link
      ensures TreeOk(link, t', i, sizes, BinLow(i), BinBits(i))
      ensures Addrs(t') == Addrs(t) + {x} && Root(t') == Root(t) && t'.Node?
      ensures forall b :: b in old(link) && b != x && b !in Addrs(t) ==> b in link && link[b] == old(link)[b]
      ensures link.Keys == old(link).Keys
    {
      hide TreeOk, BinLow, BinBits, Shl, Shl1, TopBit, SubAt, Addrs, Walk, Inserted, LeftShift;
      ghost var lo, k, m := BinLow(i), BinBits(i), link;
      var p: nat := treebins[i];
      var w: nat := Shl(s, LeftShift(i));
      WalkBegin(t, i, s);
      while true
        invariant link == m && p in Addrs(t) && Walk(t, lo, k, p, s, w)
        decreases KAt(t, p, k)
      {
        WalkNode(m, t, i, sizes, lo, k, p, s, w);
        ghost var sub := SubAt(t, p);
        if head[p].size != s {
          WalkStops(m, t, i, sizes, lo, k, p, s, w);
          var bit := TopBit(w);
          var c := if bit == 0 then link[p].c0 else link[p].c1;
          if c != NULL {
            WalkDown(m, t, i, sizes, lo, k, p, s, w, ChildOf(sub, bit));
            w := Shl1(w);
            p := c;
          } else {
            t' := Graft(t, p, LeafAdded(sub, bit, x, s));
            InsertLeaf(m, t, i, sizes, lo, k, p, s, w, x, t');
            link := WithChild(link, p, bit, x);
            link := link[x := link[x].(up := p, fd := x, bk := x)];
            return;
          }
        } else {
          link := link[x := link[x].(up := NULL)];
          InsertReadyUp(m, link, t, i, x, sizes, lo, k);
          ghost var s' := sub.(ring := [p, x] + sub.ring[1..]);
          t' := Graft(t, p, s');
          InsertRing(link, t, i, sizes, lo, k, p, x, s', t');
          var f := link[p].fd;
          StoresKeep(link, p, x, f);
          link := Inserted(link, x, p, f);
          return;
        }
      }
    }

    /** `unlink_large_chunk`. */
    method UnlinkLarge(x: nat)
      requires BinsValid() && x in free.bins && MIN_LARGE <= free.bins[x]
      modifies this`link, this`treemap, this`treebins, this`free
      ensures BinsValid() && free.bins == old(free.bins) - {x}
      ensures LinkKept(old(link), link, old(free.bins), free.bins)
    {
      hide BinsOk, TreeOk, BinLow, BinBits, Addrs, TreeIndex, Unlinked, SubAt, Graft, Slotted, Replaced, Ready, WithBk,
        WithFd, UpAt, Root, Without;
      ghost var i := TreeIndex(free.bins[x]);
      ghost var s0, m, lo, k := State(), link, BinLow(i), BinBits(i);
      TreeBinOf(s0, free, x);
      TreeBinAt(s0, free, i);
      ghost var t := free.trees[i];
      ghost var pos := UnlinkCases(m, t, i, free.bins, lo, k, x);
      ghost var sub, up := SubAt(t, x), UpAt(t, x, TreeHdr(i));
      var xp := link[x].up;
      ghost var t';
      if link[x].bk != x {
        var f, r := link[x].fd, link[x].bk;
        if pos > 0 {
          t' := Graft(t, x, sub.(ring := Without(sub.ring, pos)));
          UnlinkMember(m, t, i, free.bins, lo, k, x, pos, sub.(ring := Without(sub.ring, pos)), t');
        } else {
          t' := HeadPlan(m, t, i, free.bins, lo, k, x);
        }
        UnlinkStores(link, x);
        link := WithBk(link, f, r);
        link := WithFd(link, r, f);
        if xp != NULL {
          PutInPlace(x, xp, r);
        }
      } else if link[x].c1 != NULL || link[x].c0 != NULL {
        var r;
        r, t' := CutLeaf(x, i, t, free.bins, lo, k);
        PutInPlace(x, xp, r);
      } else {
        t' := Graft(t, x, Nil);
        UnlinkLeaf(m, t, i, free.bins, lo, k, x, t');
        PutInPlace(x, xp, NULL);
      }
      TreeRemoved(s0, free, link, i, x, t');
      assert State() == WithRoot(s0, link, i, t');
      free := WithTree(free, i, t', free.bins - {x});
    }

    /** The second half of `unlink_large_chunk`: the parent slot of `x` takes
        `r`, and `r`, if any, takes the parent and the children of `x`. */
    method PutInPlace(x: nat, xp: nat, r: nat)
      requires x in link && x != NULL && link[x].index < |treebins|
      requires if r == NULL then treebins[link[x].index] == x || xp in link
               else Ready(link, treebins[link[x].index] == x, xp, x, r) && xp == link[x].up
      modifies this`link, this`treemap, this`treebins
      ensures r == NULL ==> link == Slotted(old(link), old(treebins[link[x].index] == x), xp, x, NULL)
      ensures r != NULL ==> link == Replaced(old(link), old(treebins[link[x].index] == x), xp, x, r)
      ensures link.Keys == old(link).Keys
      ensures treebins == if old(treebins[link[x].index]) == x then old(treebins[link[x].index := r]) else old(treebins)
      ensures treemap ==
        if old(treebins[link[x].index]) == x && r == NULL then old(treemap - {link[x].index}) else old(treemap)
    {
      var i := link[x].index;
      if x == treebins[i] {
        treebins := treebins[i := r];
        if r == NULL {
          treemap := treemap - {i};
        }
      } else {
        if link[xp].c0 == x {
          link := WithChild(link, xp, 0, r);
        } else {
          link := WithChild(link, xp, 1, r);
        }
      }
      if r != NULL {
        link := WithUp(link, r, xp);
        Adopt(r, 0, link[x].c0);
        Adopt(r, 1, link[x].c1);
      }
    }

    /** One child of the chunk being unlinked, if any, moves below `r`. */
    method Adopt(r: nat, bit: nat, c: nat)
      requires r in link && (c == NULL || c in link)
      modifies this`link
      ensures link == Adopted(old(link), r, bit, c) && link.Keys == old(link).Keys
    {
      if c != NULL {
        link := WithChild(link, r, bit, c);
        link := WithUp(link, c, r);
      }
    }

    /** The middle of `unlink_large_chunk`: find the rightmost leaf below the
        single chunk `x` and cut it off its parent. */
    method CutLeaf(x: nat, ghost i: nat, ghost t: Trie, ghost sizes: map<nat, nat>, ghost lo: nat, ghost k: nat)
      returns (r: nat, ghost t': Trie)
      requires TreeOk(link, t, i, sizes, lo, k) && x in Addrs(t) && i < NTREEBINS
      requires SubAt(t, x).ring == [x] && (SubAt(t, x).l.Node? || SubAt(t, x).r.Node?)
      modifies this`link
      ensures r != NULL && Plan(old(link), link, t, i, sizes, lo, k, x, r, t') && link.Keys == old(link).Keys
      ensures r == LastLeaf(SubAt(t, x))
    {
      hide Linked, Apart, Spans, Fits, SubAt, Plan, Addrs;
      ghost var m, sub, up := link, SubAt(t, x), UpAt(t, x, TreeHdr(i));
      ghost var lo', k' := LoAt(t, x, lo, k), KAt(t, x, k);
      SubAtOk(m, t, x, i, sizes, lo, k);
      SubRoot(sub, x);
      LeafNode(m, sub, up, i, x);
      var rp, side := x, 1;
      r := link[x].c1;
      if r == NULL {
        side := 0;
        r := link[x].c0;
      }
      ghost var cur := ChildOf(sub, side);
      DescentStep(m, sub, up, i, lo', k', x, side, cur);
      while true
        invariant link == m && side < 2 && r in Addrs(sub) && SubAt(sub, r) == cur
        invariant Descent(m, sub, up, r, rp, side) && cur.Node? && r == Root(cur) && LastLeaf(cur) == LastLeaf(sub)
        decreases cur
      {
        SubAtLinked(m, sub, r, up, i);
        LeafNode(m, cur, UpAt(sub, r, up), i, r);
        if link[r].c1 != NULL {
          DescentStep(m, sub, up, i, lo', k', r, 1, cur.r);
          rp, side, cur := r, 1, cur.r;
          r := link[rp].c1;
        } else if link[r].c0 != NULL {
          DescentStep(m, sub, up, i, lo', k', r, 0, cur.l);
          rp, side, cur := r, 0, cur.l;
          r := link[rp].c0;
        } else {
          break;
        }
      }
      t' := LeafPlan(m, t, i, sizes, lo, k, x, r, rp, side);
      link := WithChild(link, rp, side, NULL);
    }

    // ----- best fit -----

    /** `leftmost_child`. */
    function LeftmostPtr(t: nat): nat
      requires t in link
      reads this`link
    {
      if link[t].c0 != NULL then link[t].c0 else link[t].c1
    }

    /** First loop of `tmalloc_large`: down the bin of the request, keeping the
        best node passed and the deepest right subtree not taken. */
    method WalkBin(nb: nat, i: nat) returns (t: nat, v: nat, rsize: nat, ghost cur: Trie, ghost up: nat)
      requires BinsValid() && HeadsHold() && MIN_LARGE <= nb < SIZE_T_RANGE
      requires i == TreeIndex(nb) && treebins[i] != NULL
      ensures Candidate(v, rsize, nb, free.bins) && Held(link, cur, t, up, i, free.bins)
      ensures v != NULL || t != NULL ==> Remaining(cur, v, nb, free.bins)
      ensures v != NULL ==> v in link && link[v].up != NULL
      ensures v == NULL && t == NULL && nb < INDEX_LIMIT ==> forall z :: z in SizeSet(free.trees[i]) ==> z < nb
    {
      hide BinsOk, TreeOk, TreeIndex, BinLow, BinBits, Shl, Shl1, TopBit, LeftShift, SizeSet, Addrs,
           Ahead, Candidate, Beats, Remaining, AtNode, Held;
      ghost var s0, lo, k := State(), BinLow(i), BinBits(i);
      TreeBinAt(s0, free, i);
      ghost var tree := free.trees[i];
      t, v, rsize, cur, up := treebins[i], NULL, Sub64(0, nb), tree, TreeHdr(i);
      var w: nat := Shl(nb, LeftShift(i));
      var rst: nat := NULL;
      ghost var rstTree, rup := Nil, 0;
      NodeStart(s0, free, i, nb, w);
      CandidateStart(nb, free.bins);
      while true
        invariant cur.Node? && AtNode(link, tree, lo, k, i, free.bins, cur, t, up, rstTree, rst, rup, nb, w)
        invariant Candidate(v, rsize, nb, free.bins) && rsize != 0 && (v != NULL ==> v in Addrs(tree))
        invariant v != NULL ==> v in link && link[v].up != NULL
        invariant nb < INDEX_LIMIT ==> Ahead(tree, cur, rstTree, v, nb, free.bins)
        decreases cur
      {
        AtNodeParts(link, tree, lo, k, i, free.bins, cur, t, up, rstTree, rst, rup, nb, w);
        HeldNode(link, cur, t, up, i, free.bins);
        var trem := Sub64(head[t].size, nb);
        ghost var v0, rsize0 := v, rsize;
        if trem < rsize {
          v := t;
          rsize := trem;
        }
        NodeCompare(tree, cur, rstTree, t, v0, rsize0, v, rsize, nb, free.bins);
        if rsize == 0 {
          break;
        }
        var rt := link[t].c1;
        var bit := TopBit(w);
        var next := if bit == 0 then link[t].c0 else link[t].c1;
        ghost var c, rst0, rp0, rup0 := ChildOf(cur, bit), rstTree, rst, rup;
        if rt != NULL && rt != next {
          rst, rstTree, rup := rt, cur.r, t;
        }
        NodeStep(link, tree, lo, k, i, free.bins, cur, t, up, rst0, rp0, rup0, nb, w, c, next, rstTree, rst, rup);
        if nb < INDEX_LIMIT {
          NodeAhead(link, tree, lo, k, i, free.bins, cur, t, up, rst0, rp0, rup0, nb, w, v, rstTree);
        }
        t, cur, up, w := next, c, t, Shl1(w);
        if t == NULL {
          AtNodeParts(link, tree, lo, k, i, free.bins, cur, t, up, rstTree, rst, rup, nb, w);
          WalkDone(s0, free, i, rstTree, v, rsize, nb);
          t, cur, up := rst, rstTree, rup;
          break;
        }
      }
    }

    /** The search of `tmalloc_large`: its candidate is a smallest tree chunk
        that fits, over all bins, and it has none only when none fits. */
    method FindLarge(nb: nat) returns (v: nat, rsize: nat)
      requires BinsValid() && HeadsHold() && MIN_LARGE <= nb < SIZE_T_RANGE
      ensures v == NULL ==> forall a :: a in free.bins ==> free.bins[a] < nb
      ensures v != NULL ==> BestFit(free.bins, v, nb) && rsize == free.bins[v] - nb && v in link && link[v].up != NULL
    {
      hide BinsOk, TreeOk, TreeIndex, Least, Held, SizeSet, Remaining, Beats, NextMarked, BinLow, BinBits;
      ghost var s0 := State();
      var i := TreeIndex(nb);
      TreeBinAt(s0, free, i);
      var t: nat := treebins[i];
      ghost var cur, up, j := free.trees[i], TreeHdr(i), i;
      v, rsize := NULL, Sub64(0, nb);
      HeldRoot(s0, free, i);
      NoSizes();
      if t != NULL {
        t, v, rsize, cur, up := WalkBin(nb, i);
      }
      HeldNull(link, cur, t, up, i, free.bins);
      if t == NULL && v == NULL {
        var b := NextMarked(treemap, i);
        if b < NTREEBINS {
          t := treebins[b];
          cur, up, j := free.trees[b], TreeHdr(b), b;
          HeldRoot(s0, free, b);
        } else {
          cur := Nil;
        }
        SearchNext(s0, free, i, b, nb);
      }
      while t != NULL
        invariant Held(link, cur, t, up, j, free.bins) && Candidate(v, rsize, nb, free.bins)
        invariant v != NULL ==> v in link && link[v].up != NULL
        invariant Remaining(cur, v, nb, free.bins)
        decreases cur
      {
        HeldNull(link, cur, t, up, j, free.bins);
        HeldNode(link, cur, t, up, j, free.bins);
        var trem := Sub64(head[t].size, nb);
        Compare(v, rsize, nb, free.bins, t);
        ghost var v0 := v;
        if trem < rsize {
          rsize := trem;
          v := t;
        }
        RemainingStep(cur, v0, v, nb, free.bins);
        HeldLeftmost(link, cur, t, up, j, free.bins);
        t, cur, up := LeftmostPtr(t), LeftmostChild(cur), t;
      }
      HeldNull(link, cur, t, up, j, free.bins);
      RemainingDone(cur, v, nb, free.bins);
    }

    /** The search of `tmalloc_small`: a smallest of all tree chunks. */
    method FindSmallest(nb: nat) returns (v: nat, rsize: nat)
      requires BinsValid() && HeadsHold() && nb < MIN_LARGE && treemap != {}
      ensures BestFit(free.bins, v, MIN_LARGE) && v in free.bins && MIN_LARGE <= free.bins[v] == rsize + nb
      ensures v in link && link[v].up != NULL
    {
      hide BinsOk, TreeOk, TreeIndex, Least, Held, SizeSet, Remaining;
      ghost var s0 := State();
      TreemapBound(s0, free);
      var i := FirstFrom(treemap, 0);
      assert i < NTREEBINS by { var j :| j in treemap; }
      HeldRoot(s0, free, i);
      TreeBinAt(s0, free, i);
      var t: nat := treebins[i];
      ghost var cur, up := free.trees[i], TreeHdr(i);
      HeldNull(link, cur, t, up, i, free.bins);
      HeldNode(link, cur, t, up, i, free.bins);
      SmallestStart(s0, free, i);
      LargeSizes(s0, free, i);
      SizesSplit(cur);
      assert cur.size in SizeSet(cur);
      v, rsize := t, head[t].size - nb;
      RemainingStep(cur, NULL, v, MIN_LARGE, free.bins);
      HeldLeftmost(link, cur, t, up, i, free.bins);
      t, cur, up := LeftmostPtr(t), LeftmostChild(cur), t;
      while t != NULL
        invariant Held(link, cur, t, up, i, free.bins) && Remaining(cur, v, MIN_LARGE, free.bins)
        invariant v != NULL && v in free.bins && MIN_LARGE <= free.bins[v] && rsize == free.bins[v] - nb
        invariant v in link && link[v].up != NULL
        invariant forall z :: z in SizeSet(cur) ==> MIN_LARGE <= z
        decreases cur
      {
        HeldNull(link, cur, t, up, i, free.bins);
        HeldNode(link, cur, t, up, i, free.bins);
        SizesSplit(cur);
        assert cur.size in SizeSet(cur);
        var trem := head[t].size - nb;
        ghost var v0 := v;
        if trem < rsize {
          rsize := trem;
          v := t;
        }
        RemainingStep(cur, v0, v, MIN_LARGE, free.bins);
        HeldLeftmost(link, cur, t, up, i, free.bins);
        t, cur, up := LeftmostPtr(t), LeftmostChild(cur), t;
      }
      HeldNull(link, cur, t, up, i, free.bins);
      RemainingDone(cur, v, MIN_LARGE, free.bins);
    }

    // ----- boundary tags -----

    /** `set_inuse_and_pinuse` with its footer mark. */
    method MarkWhole(p: nat, s: nat)
      requires HeapOk(Segment()) && p in chunks && !chunks[p].used && s == chunks[p].size
      modifies this`head, this`foot, this`chunks
      ensures p + s in old(head) && Segment() == UsedWhole(old(Segment()), p) && HeapOk(Segment())
      ensures chunks == old(chunks)[p := Chunk(s, true)]
      ensures TagsKept(old(Segment()), Segment())
    {
      UseWhole(Segment(), p);
      head := head[p := Head(s, true, true)];
      head := head[p + s := head[p + s].(pinuse := true)];
      foot := foot[p + s := OwnerFoot];
      chunks := chunks[p := Chunk(s, true)];
    }

    /** `set_size_and_pinuse_of_inuse_chunk` on the front `nb` bytes and
        `set_size_and_pinuse_of_free_chunk` on the rest. */
    method MarkFront(p: nat, nb: nat, rsize: nat)
      requires HeapOk(Segment()) && p in chunks && !chunks[p].used && chunks[p].size == nb + rsize
      requires nb % 16 == 0 && MIN_CHUNK <= nb && MIN_CHUNK <= rsize
      modifies this`head, this`foot, this`chunks
      ensures p + nb !in old(chunks) && Segment() == UsedFront(old(Segment()), p, nb) && HeapOk(Segment())
      ensures chunks == SplitChunks(old(chunks), p, nb)
      ensures TagsKept(old(Segment()), Segment())
    {
      UseFront(Segment(), p, nb);
      var r := p + nb;
      head := head[p := Head(nb, true, true)];
      foot := foot[r := OwnerFoot];
      head := head[r := Head(rsize, false, true)];
      foot := foot[r + rsize := SizeFoot(rsize)];
      chunks := SplitChunks(chunks, p, nb);
    }

    // ----- bin relays -----

    /** `insert_chunk`. */
    method InsertChunk(p: nat, s: nat)
      requires BinsValid() && HeadsHold() && p >= FIRST_CHUNK && p !in free.bins
      requires MIN_CHUNK <= s < INDEX_LIMIT && s % 16 == 0
      modifies this`link, this`smallmap, this`treemap, this`treebins, this`free
      ensures BinsValid() && free.bins == old(free.bins)[p := s]
      ensures LinkKept(old(link), link, old(free.bins), free.bins)
    {
      if s < MIN_LARGE {
        InsertSmall(p, s);
      } else {
        InsertLarge(p, s);
      }
    }

    /** `unlink_chunk`. */
    method UnlinkChunk(p: nat, s: nat)
      requires BinsValid() && p in free.bins && free.bins[p] == s
      modifies this`link, this`smallmap, this`treemap, this`treebins, this`free
      ensures BinsValid() && free.bins == old(free.bins) - {p}
      ensures LinkKept(old(link), link, old(free.bins), free.bins)
    {
      if s < MIN_LARGE {
        UnlinkSmall(p, s);
      } else {
        UnlinkLarge(p);
      }
    }

    /** `replace_dv`, used only when the old victim is small. */
    method ReplaceDv(p: nat, s: nat)
      requires BinsValid() && (dvsize != 0 ==> dv >= FIRST_CHUNK && dv !in free.bins)
      requires dvsize != 0 ==> MIN_CHUNK <= dvsize < MIN_LARGE && dvsize % 16 == 0
      modifies this`link, this`smallmap, this`free, this`dv, this`dvsize
      ensures BinsValid() && dv == p && dvsize == s
      ensures free.bins == if old(dvsize) == 0 then old(free.bins) else old(free.bins)[old(dv) := old(dvsize)]
      ensures LinkKept(old(link), link, old(free.bins), free.bins)
    {
      if dvsize != 0 {
        InsertSmall(dv, dvsize);
      }
      dvsize := s;
      dv := p;
    }

    // ----- allocation -----

    /** `mem` is the payload of a chunk newly in use, big enough for `nb` and
        wasting less than a minimal chunk; nothing else changed hands. */
    ghost predicate Served(cs: ChunkMap, cs': ChunkMap, mem: nat, nb: nat) {
      && mem >= CHUNK_OVERHEAD + FIRST_CHUNK
      && var p := mem - CHUNK_OVERHEAD;
         && p !in Live(cs) && p in Live(cs') && nb <= Live(cs')[p] < nb + MIN_CHUNK
         && Live(cs') == Live(cs)[p := Live(cs')[p]]
    }

    lemma ServedKeeps(cs: ChunkMap, cs': ChunkMap, mem: nat, nb: nat)
      requires Served(cs, cs', mem, nb)
      ensures mem >= CHUNK_OVERHEAD && forall a :: a in Live(cs) && a in Live(cs') ==> Live(cs')[a] == Live(cs)[a]
    {
    }

    /** The chunk `p`, just unlinked from its bin, serves the request: whole, or
        split with the remainder becoming the designated victim. */
    method UseBinned(p: nat, nb: nat, rsize: nat, whole: bool, ghost bins0: map<nat, nat>) returns (mem: nat)
      requires BinsValid() && HeapOk(Segment()) && FreeMatch(chunks, bins0, dv, dvsize)
      requires p in bins0 && bins0[p] == nb + rsize && free.bins == bins0 - {p} && nb % 16 == 0 && MIN_CHUNK <= nb
      requires if whole then rsize < MIN_CHUNK else dvsize < nb < MIN_LARGE
      modifies this
      ensures Valid() && Served(old(chunks), chunks, mem, nb) && first == old(first)
      ensures top + topsize == old(top + topsize) && mem == p + CHUNK_OVERHEAD
      ensures LinkKept(old(link), link, old(free.bins), free.bins) && TagsKept(old(Segment()), Segment())
      ensures forall a :: a in old(free.bins) ==> a in bins0
      ensures RestToVictim(old(Stock()).(bins := bins0), p, nb, Stock())
    {
      hide BinsOk, HeapOk, UsedWhole, UsedFront, SplitChunks, Live, FreeMatch, LinkKept, TagsKept;
      NotLive(chunks);
      NothingKept(Segment(), link, free.bins);
      MatchDv(Segment(), bins0, dv, dvsize);
      MatchBin(chunks, bins0, dv, dvsize, p);
      ChunkFits(Segment(), p);
      if whole || rsize < MIN_CHUNK {
        UseWholeMatch(chunks, bins0, dv, dvsize, p);
        MarkWhole(p, rsize + nb);
      } else {
        ghost var cs0 := chunks;
        MarkFront(p, nb, rsize);
        SplitMatch(cs0, bins0, dv, dvsize, p, nb);
        ReplaceDv(p + nb, rsize);
      }
      mem := p + CHUNK_OVERHEAD;
    }

    /** A chunk of a small bin serves the request: whole, or split with the
        remainder becoming the designated victim. */
    method TakeSmall(i: nat, nb: nat, whole: bool) returns (mem: nat)
      requires Valid() && i < NSMALLBINS && i in smallmap && nb <= 8 * i && nb % 16 == 0 && MIN_CHUNK <= nb
      requires if whole then 8 * i < nb + MIN_CHUNK else dvsize < nb
      modifies this
      ensures Valid() && Served(old(chunks), chunks, mem, nb) && first == old(first)
      ensures top + topsize == old(top + topsize)
      ensures LinkKept(old(link), link, old(free.bins), free.bins) && TagsKept(old(Segment()), Segment())
      ensures old(free.small)[i] != [] && mem == old(free.small)[i][0] + CHUNK_OVERHEAD
      ensures RestToVictim(old(Stock()), mem - CHUNK_OVERHEAD, nb, Stock())
      ensures InFront(old(Stock()), mem - CHUNK_OVERHEAD)
      ensures old(free.bins)[mem - CHUNK_OVERHEAD] == 8 * i
      ensures NotChained(old(link), old(free.bins), mem - CHUNK_OVERHEAD)
    {
      hide BinsOk, HeapOk, Live, FreeMatch, LinkKept, TagsKept, Served;
      ghost var bins0, m0 := free.bins, link;
      var p := UnlinkFirstSmall(i);
      ghost var m1, bins1 := link, free.bins;
      var rsize := 8 * i - nb;
      mem := UseBinned(p, nb, rsize, whole, bins0);
      LinkKeptJoin(m0, m1, link, bins0, bins1, free.bins);
    }

    /** `tmalloc_small`: a smallest tree chunk, with the remainder becoming the
        designated victim. */
    method TmallocSmall(nb: nat) returns (mem: nat)
      requires Valid() && treemap != {} && nb % 16 == 0 && MIN_CHUNK <= nb < MIN_LARGE && dvsize < nb
      modifies this
      ensures Valid() && Served(old(chunks), chunks, mem, nb) && first == old(first)
      ensures top + topsize == old(top + topsize)
      ensures mem >= CHUNK_OVERHEAD && BestFit(old(free.bins), mem - CHUNK_OVERHEAD, MIN_LARGE)
      ensures LinkKept(old(link), link, old(free.bins), free.bins) && TagsKept(old(Segment()), Segment())
      ensures RestToVictim(old(Stock()), mem - CHUNK_OVERHEAD, nb, Stock())
      ensures NotChained(old(link), old(free.bins), mem - CHUNK_OVERHEAD)
    {
      hide BinsOk, HeapOk, Live, FreeMatch, LinkKept, TagsKept, Served, BestFit;
      HeadsOfBins(Segment(), free.bins, dv, dvsize);
      ghost var bins0, m0 := free.bins, link;
      var v, rsize := FindSmallest(nb);
      UnlinkLarge(v);
      ghost var m1, bins1 := link, free.bins;
      mem := UseBinned(v, nb, rsize, false, bins0);
      LinkKeptJoin(m0, m1, link, bins0, bins1, free.bins);
    }

    /** The chosen tree chunk serves the request, its remainder going to a bin. */
    method TakeLarge(v: nat, nb: nat, rsize: nat) returns (mem: nat)
      requires Valid() && v in free.bins && MIN_LARGE <= free.bins[v] == nb + rsize && nb % 16 == 0 && MIN_CHUNK <= nb
      modifies this`head, this`foot, this`chunks, this`link, this`smallmap, this`treemap, this`treebins, this`free
      ensures Valid() && Served(old(chunks), chunks, mem, nb)
      ensures LinkKept(old(link), link, old(free.bins), free.bins)
      ensures TagsKept(old(Segment()), Segment())
      ensures mem == v + CHUNK_OVERHEAD
      ensures RestToBin(old(Stock()), v, nb, Stock())
    {
      hide BinsOk, HeapOk, UsedWhole, UsedFront, SplitChunks, Live, FreeMatch, LinkKept, TagsKept, RestToBin;
      ghost var s0 := Stock();
      NotLive(chunks);
      ghost var cs0, bins0, m0 := chunks, free.bins, link;
      MatchBin(cs0, bins0, dv, dvsize, v);
      ChunkFits(Segment(), v);
      UnlinkLarge(v);
      ghost var m1, bins1 := link, free.bins;
      NothingKept(Segment(), m1, bins1);
      if rsize < MIN_CHUNK {
        UseWholeMatch(cs0, bins0, dv, dvsize, v);
        MarkWhole(v, rsize + nb);
      } else {
        MarkFront(v, nb, rsize);
        SplitMatch(cs0, bins0, dv, dvsize, v, nb);
        KeepHeads(cs0, bins0, dv, dvsize, Segment(), v, v + nb);
        InsertChunk(v + nb, rsize);
      }
      LinkKeptJoin(m0, m1, link, bins0, bins1, free.bins);
      RestBinned(s0, v, nb, Stock());
      mem := v + CHUNK_OVERHEAD;
    }

    /** `tmalloc_large`: the best fitting tree chunk, unless there is none or
        the designated victim fits better; the remainder is binned. */
    method TmallocLarge(nb: nat) returns (mem: nat)
      requires Valid() && nb % 16 == 0 && MIN_LARGE <= nb < SIZE_T_RANGE
      modifies this
      ensures Valid() && first == old(first) && top + topsize == old(top + topsize)
      ensures mem != NULL ==> Served(old(chunks), chunks, mem, nb)
      ensures mem == NULL ==> Segment() == old(Segment()) && free == old(free) && dv == old(dv) && dvsize == old(dvsize)
      ensures mem != NULL ==> mem >= CHUNK_OVERHEAD && BestFit(old(free.bins), mem - CHUNK_OVERHEAD, nb)
      ensures mem == NULL <==>
        forall a :: a in old(free.bins) && nb <= old(free.bins)[a] ==> nb <= old(dvsize) <= old(free.bins)[a]
      ensures LinkKept(old(link), link, old(free.bins), free.bins)
      ensures TagsKept(old(Segment()), Segment())
      ensures mem == NULL <==> !BinServes(old(Stock()), nb)
      ensures mem != NULL ==> RestToBin(old(Stock()), mem - CHUNK_OVERHEAD, nb, Stock())
      ensures mem != NULL ==> NotChained(old(link), old(free.bins), mem - CHUNK_OVERHEAD)
    {
      hide BinsOk, HeapOk, Live, FreeMatch;
      HeadsOfBins(Segment(), free.bins, dv, dvsize);
      var v, rsize := FindLarge(nb);
      mem := NULL;
      if v != NULL {
        NoHugeChunks(State(), free);
        DvSmallerThanWord(Segment(), free.bins, dv, dvsize);
        if rsize < Sub64(dvsize, nb) {
          mem := TakeLarge(v, nb, rsize);
        }
      }
    }

    /** Split or exhaust the designated victim. */
    method FromDv(nb: nat) returns (mem: nat)
      requires Valid() && MIN_CHUNK <= nb <= dvsize && nb % 16 == 0
      modifies this`head, this`foot, this`chunks, this`dv, this`dvsize
      ensures Valid() && Served(old(chunks), chunks, mem, nb)
      ensures TagsKept(old(Segment()), Segment())
      ensures mem == old(dv) + CHUNK_OVERHEAD && VictimCut(old(Stock()), nb, Stock())
      ensures mem - CHUNK_OVERHEAD !in free.bins
    {
      hide BinsOk, HeapOk, UsedWhole, UsedFront, SplitChunks, Live, FreeMatch;
      NotLive(chunks);
      MatchDv(Segment(), free.bins, dv, dvsize);
      ghost var cs0, bins0 := chunks, free.bins;
      var rsize := dvsize - nb;
      var p := dv;
      if rsize >= MIN_CHUNK {
        MarkFront(p, nb, rsize);
        SplitDvMatch(cs0, bins0, dv, dvsize, nb);
        dv := p + nb;
        dvsize := rsize;
      } else {
        UseWholeMatch(cs0, bins0, dv, dvsize, p);
        MarkWhole(p, dvsize);
        dvsize := 0;
        dv := NULL;
      }
      mem := p + CHUNK_OVERHEAD;
    }

    /** Split the top chunk. */
    method FromTop(nb: nat) returns (mem: nat)
      requires Valid() && MIN_CHUNK <= nb < topsize && nb % 16 == 0
      modifies this`head, this`foot, this`chunks, this`top, this`topsize
      ensures Valid() && Served(old(chunks), chunks, mem, nb) && top + topsize == old(top + topsize)
      ensures TagsKept(old(Segment()), Segment())
      ensures mem == old(top) + CHUNK_OVERHEAD && TopCut(old(Stock()), nb, Stock())
      ensures mem - CHUNK_OVERHEAD !in free.bins
    {
      hide BinsOk, HeapOk, UsedTop, Live, FreeMatch;
      TopBounds(Segment());
      TopNotBinned(Segment(), free.bins, dv, dvsize);
      UseTop(Segment(), nb);
      TopMatch(chunks, free.bins, dv, dvsize, top, nb);
      TopUsed(Segment(), nb);
      var p := top;
      var rsize := topsize - nb;
      topsize := rsize;
      top := p + nb;
      head := head[top := Head(rsize, false, true)];
      head := head[p := Head(nb, true, true)];
      foot := foot[top := OwnerFoot];
      chunks := chunks[p := Chunk(nb, true)];
      mem := p + CHUNK_OVERHEAD;
    }

    /** The tail of `mspace_malloc`: the designated victim, else top, else
        there is nothing to serve from. */
    method FromDvOrTop(nb: nat) returns (mem: nat)
      requires Valid() && MIN_CHUNK <= nb && (nb % 16 == 0 || nb == MAX_SIZE_T)
      modifies this`head, this`foot, this`chunks, this`dv, this`dvsize, this`top, this`topsize
      ensures Valid() && top + topsize == old(top + topsize)
      ensures mem != NULL ==> Served(old(chunks), chunks, mem, nb)
      ensures mem == NULL ==> Segment() == old(Segment()) && dv == old(dv) && dvsize == old(dvsize)
      ensures mem == NULL <==> old(dvsize) < nb && old(topsize) <= nb
      ensures TagsKept(old(Segment()), Segment())
      ensures mem != NULL ==>
        mem >= CHUNK_OVERHEAD && ServedElse(old(Stock()), nb, mem - CHUNK_OVERHEAD, Stock())
      ensures mem != NULL ==> mem - CHUNK_OVERHEAD !in free.bins
    {
      hide BinsOk, HeapOk, FreeMatch, Live;
      DvSmallerThanWord(Segment(), free.bins, dv, dvsize);
      mem := NULL;
      if nb <= dvsize {
        mem := FromDv(nb);
      } else if nb < topsize {
        mem := FromTop(nb);
      }
    }

    /** Small-request half of `mspace_malloc`, up to the designated victim. */
    method MallocSmall(nb: nat) returns (mem: nat)
      requires Valid() && nb % 16 == 0 && MIN_CHUNK <= nb < MIN_LARGE
      modifies this
      ensures Valid() && first == old(first) && top + topsize == old(top + topsize)
      ensures mem != NULL ==> Served(old(chunks), chunks, mem, nb)
      ensures mem == NULL ==> Segment() == old(Segment()) && free == old(free) && dv == old(dv) && dvsize == old(dvsize)
      ensures LinkKept(old(link), link, old(free.bins), free.bins)
      ensures TagsKept(old(Segment()), Segment())
      ensures mem == NULL <==> !BinServes(old(Stock()), nb)
      ensures mem != NULL ==> ServedBy(old(Stock()), nb, mem - CHUNK_OVERHEAD, Stock())
      ensures mem != NULL ==> NotChained(old(link), old(free.bins), mem - CHUNK_OVERHEAD)
    {
      hide BinsOk, HeapOk, FreeMatch, Live, LinkKept, TagsKept, RestToVictim, ServedBy, BinServes, InFront, Served,
        BestFit, NotChained;
      ghost var b0, f0, s0 := State(), free, Stock();
      NothingKept(Segment(), link, free.bins);
      var idx := nb / 8;
      mem := NULL;
      SizesAligned(Segment(), free.bins, dv, dvsize);
      if idx in smallmap || idx + 1 in smallmap {
        if idx !in smallmap {
          idx := idx + 1;
        }
        ExactBin(b0, f0, nb, idx);
        mem := TakeSmall(idx, nb, true);
        ServedSmall(s0, nb, mem - CHUNK_OVERHEAD, Stock());
      } else if nb > dvsize {
        mem := SplitBinned(nb);
      } else {
        NoneExact(b0, free, nb);
        VictimFirst(s0, nb);
      }
    }

    /** The part for a request that neither its bins nor the designated victim can
        serve: the next small bin, else a tree chunk, is split. */
    method SplitBinned(nb: nat) returns (mem: nat)
      requires Valid() && nb % 16 == 0 && MIN_CHUNK <= nb < MIN_LARGE
      requires nb / 8 !in smallmap && nb / 8 + 1 !in smallmap && dvsize < nb
      modifies this
      ensures Valid() && first == old(first) && top + topsize == old(top + topsize)
      ensures mem != NULL ==> Served(old(chunks), chunks, mem, nb)
      ensures mem == NULL ==> Segment() == old(Segment()) && free == old(free) && dv == old(dv) && dvsize == old(dvsize)
      ensures LinkKept(old(link), link, old(free.bins), free.bins)
      ensures TagsKept(old(Segment()), Segment())
      ensures mem == NULL <==> !BinServes(old(Stock()), nb)
      ensures mem != NULL ==> ServedBy(old(Stock()), nb, mem - CHUNK_OVERHEAD, Stock())
      ensures mem != NULL ==> NotChained(old(link), old(free.bins), mem - CHUNK_OVERHEAD)
    {
      hide BinsOk, HeapOk, FreeMatch, Live, LinkKept, TagsKept, RestToVictim, ServedBy, BinServes, InFront, Served,
        BestFit, NotChained;
      ghost var b0, f0, s0 := State(), free, Stock();
      NothingKept(Segment(), link, free.bins);
      var idx := nb / 8;
      mem := NULL;
      if FirstFrom(smallmap, idx) < NSMALLBINS {
        var i := NextMarked(smallmap, idx);
        MarkedFront(b0, f0, i);
        NextIsBest(b0, f0, nb, i, f0.small[i][0]);
        mem := TakeSmall(i, nb, false);
        ServedSmall(s0, nb, mem - CHUNK_OVERHEAD, Stock());
      } else if treemap != {} {
        mem := TmallocSmall(nb);
        TreeIsBest(b0, f0, nb, mem - CHUNK_OVERHEAD);
        TreeInFront(s0, mem - CHUNK_OVERHEAD);
        ServedSmall(s0, nb, mem - CHUNK_OVERHEAD, Stock());
      } else {
        NothingBinned(b0, free, idx);
        NoneFits(s0, nb);
      }
    }

    /** Large-request half of `mspace_malloc`, up to the designated victim. */
    method MallocLarge(nb: nat) returns (mem: nat)
      requires Valid() && nb % 16 == 0 && MIN_LARGE <= nb < SIZE_T_RANGE
      modifies this
      ensures Valid() && first == old(first) && top + topsize == old(top + topsize)
      ensures mem != NULL ==> Served(old(chunks), chunks, mem, nb)
      ensures mem == NULL ==> Segment() == old(Segment()) && free == old(free) && dv == old(dv) && dvsize == old(dvsize)
      ensures LinkKept(old(link), link, old(free.bins), free.bins)
      ensures TagsKept(old(Segment()), Segment())
      ensures mem == NULL <==> !BinServes(old(Stock()), nb)
      ensures mem != NULL ==> ServedBy(old(Stock()), nb, mem - CHUNK_OVERHEAD, Stock())
      ensures mem != NULL ==> NotChained(old(link), old(free.bins), mem - CHUNK_OVERHEAD)
    {
      hide BinsOk, HeapOk, FreeMatch, Live, LinkKept, TagsKept, ServedBy, BinServes, RestToBin, BestFit, NotChained;
      ghost var s0 := Stock();
      NothingKept(Segment(), link, free.bins);
      mem := NULL;
      if treemap != {} {
        mem := TmallocLarge(nb);
        if mem != NULL { ServedLarge(s0, nb, mem - CHUNK_OVERHEAD, Stock()); }
      } else {
        NoTreeChunks(State(), free);
        NoneFits(s0, nb);
      }
    }

    /** `mspace_malloc`, served without system calls; NULL where it would call
        `sys_alloc`, which is only when no free chunk and not top can serve. */
    method Malloc(bytes: nat) returns (mem: nat)
      requires Valid() && bytes < SIZE_T_RANGE
      modifies this
      ensures Valid() && first == old(first) && top + topsize == old(top + topsize)
      ensures mem != NULL ==> Served(old(chunks), chunks, mem, ChunkSizeFor(bytes))
      ensures mem == NULL ==> Segment() == old(Segment()) && free == old(free) && dv == old(dv) && dvsize == old(dvsize)
      ensures mem == NULL ==> forall a :: a in chunks && !chunks[a].used ==> chunks[a].size < ChunkSizeFor(bytes)
      ensures PayloadsKept(old(Segment()), old(link), Segment(), link)
      ensures mem == NULL <==> NothingServes(old(Stock()), ChunkSizeFor(bytes))
      ensures mem != NULL ==> ServedBy(old(Stock()), ChunkSizeFor(bytes), mem - CHUNK_OVERHEAD, Stock())
      ensures mem != NULL ==> NotChained(old(link), old(free.bins), mem - CHUNK_OVERHEAD)
    {
      hide BinsOk, HeapOk, FreeMatch, Live, ChunkSizeFor, LinkKept, TagsKept, PayloadsKept, ServedBy, BinServes,
        ServedElse, RestToBin, NotChained, Served, NothingServes;
      ghost var h0, m0, bins0, dv0, dvsize0 := Segment(), link, free.bins, dv, dvsize;
      ghost var s0 := Stock();
      NothingKept(h0, m0, bins0);
      var nb := ChunkSizeFor(bytes);
      NothingIs(s0, nb);
      mem := NULL;
      if bytes <= MAX_SMALL_REQUEST {
        mem := MallocSmall(nb);
      } else if bytes < MAX_REQUEST {
        mem := MallocLarge(nb);
      } else {
        NoHugeChunks(State(), free);
        NoneFits(s0, nb);
      }
      if mem == NULL {
        mem := FromDvOrTop(nb);
        if mem == NULL {
          NothingFits(chunks, s0, nb);
        } else {
          ServedRest(s0, nb, mem - CHUNK_OVERHEAD, Stock());
          NotBinned(m0, bins0, mem - CHUNK_OVERHEAD);
        }
      }
      if mem != NULL { ServedKeeps(h0.chunks, chunks, mem, nb); }
      PayloadsMissed(h0, m0, bins0, dv0, dvsize0, Segment(), link, free.bins, dv, dvsize);
    }

    // ----- release -----

    /** `set_free_with_pinuse`, or `set_size_and_pinuse_of_free_chunk` when the
        successor's PINUSE bit is already clear: chunks [q, e) become one. */
    method MarkFree(q: nat, e: nat)
      requires HeapOk(Segment()) && q in chunks && e in chunks && q < e && chunks[e].used
      requires forall a :: a in chunks && a + chunks[a].size == q ==> chunks[a].used
      modifies this`head, this`foot, this`chunks
      ensures e in old(head) && Segment() == FreedHeap(old(Segment()), q, e) && HeapOk(Segment())
      ensures chunks == Fused(old(chunks), q, e)
      ensures head == old(head)[e := old(head)[e].(pinuse := false)][q := Head(e - q, false, true)]
      ensures TagsKept(old(Segment()), Segment())
    {
      FuseHeap(Segment(), q, e);
      head := head[e := head[e].(pinuse := false)];
      head := head[q := Head(e - q, false, true)];
      foot := foot[e := SizeFoot(e - q)];
      chunks := Fused(chunks, q, e);
    }

    /** Consolidate backward: the start of the free block and what it took. */
    method MergeBack(p: nat, ghost e: nat) returns (q: nat)
      requires Valid() && p in chunks && chunks[p].used
      modifies this`link, this`smallmap, this`treemap, this`treebins, this`free
      ensures BinsValid() && q in chunks && 0 < q <= p
      ensures q != p ==> !chunks[q].used && q + chunks[q].size == p
      ensures forall a :: a in chunks && a + chunks[a].size == q ==> chunks[a].used
      ensures free.bins == if q == p || (dvsize != 0 && q == dv) then old(free.bins) else old(free.bins) - {q}
      ensures LinkKept(old(link), link, old(free.bins), free.bins)
    {
      hide BinsOk, HeapOk, FreeMatch;
      ChunkFits(Segment(), p);
      q := p;
      if head[p].pinuse {
        PrevUsed(Segment(), p);
      } else {
        PrevFree(Segment(), p);
        var prevsize := foot[p].size;
        q := p - prevsize;
        FreeNeighbours(Segment(), q);
        ChunkFits(Segment(), q);
        MatchFree(chunks, free.bins, dv, dvsize, q);
        if q != dv {
          UnlinkChunk(q, prevsize);
        }
      }
    }

    /** The fused block [q, e) becomes a free chunk: the designated victim if
        it grew from it, else binned by its size. */
    method Settle(q: nat, p: nat, e: nat, ghost bins0: map<nat, nat>)
      requires BinsValid() && HeapOk(Segment()) && FreeMatch(chunks, bins0, dv, dvsize)
      requires Block(chunks, q, p, e) && e in chunks && chunks[e].used
      requires forall a :: a in chunks && a + chunks[a].size == q ==> chunks[a].used
      requires LeftOut(bins0, free.bins, q, e) && (dvsize != 0 && q <= dv < e ==> dv == q)
      modifies this`head, this`foot, this`chunks, this`dvsize, this`link, this`smallmap, this`treemap, this`treebins,
        this`free
      ensures Valid() && Live(chunks) == old(Live(chunks)) - {p}
      ensures LinkKept(old(link), link, old(free.bins), free.bins)
      ensures TagsKept(old(Segment()), Segment())
      ensures BlockFreed(old(Stock()).(bins := bins0), q, e, Stock())
    {
      hide BinsOk, HeapOk, FreeMatch, Fused, Live, BlockFreed, LeftOut, LinkKept, TagsKept;
      ghost var cs0, h0 := chunks, Segment();
      ghost var s0, bins1 := Stock().(bins := bins0), free.bins;
      TopBounds(h0);
      NothingKept(h0, link, bins1);
      BlockLive(cs0, q, p, e);
      BlockSize(h0, q, p, e);
      MatchDv(h0, bins0, dv, dvsize);
      FreshFree(h0, bins0, dv, dvsize, q, e, p, free.bins);
      MarkFree(q, e);
      if q == dv {
        dvsize := e - q;
        BlockVictim(s0, q, e, Stock());
        SettledMatch(cs0, bins0, dv, old(dvsize), q, e, bins1, free.bins, dv, dvsize);
      } else {
        InsertChunk(q, e - q);
        BlockBinned(s0, bins1, q, e, Stock());
        SettledMatch(cs0, bins0, dv, dvsize, q, e, bins1, free.bins, dv, dvsize);
      }
    }

    /** `mspace_free`, without the trimming and releasing that make system
        calls: consolidate with free neighbours, then join top, stay or become
        the designated victim, or go to a bin. */
    method Free(mem: nat) returns (ghost q: nat, ghost e: nat)
      requires Valid() && CHUNK_OVERHEAD <= mem && mem - CHUNK_OVERHEAD in Live(chunks)
      modifies this
      ensures Valid() && first == old(first) && top + topsize == old(top + topsize)
      ensures Live(chunks) == old(Live(chunks)) - {mem - CHUNK_OVERHEAD}
      ensures FreeBlock(old(Segment()), mem - CHUNK_OVERHEAD, q, e) && BlockFreed(old(Stock()), q, e, Stock())
      ensures PayloadsKept(old(Segment()), old(link), Segment(), link)
    {
      hide BinsOk, HeapOk, FreeMatch, Fused, Below, Block, LeftOut, LinkKept, TagsKept, PayloadsKept, BlockFreed;
      var p := mem - CHUNK_OVERHEAD;
      ghost var bins0, h0, m0, dv0, dvsize0 := free.bins, Segment(), link, dv, dvsize;
      ChunkFits(h0, p);
      NextPlace(h0, p);
      var psize := head[p].size;
      var next := p + psize;
      var start := MergeBack(p, next);
      q, e := start, next;
      BackBlock(h0, bins0, dv, dvsize, q, p, free.bins);
      ghost var m1, bins1, s0, s1 := link, free.bins, old(Stock()), Stock().(bins := bins0);
      NothingKept(h0, m1, bins1);
      if next == top {
        FreeToTop(start, p, bins0);
      } else if head[next].cinuse {
        Settle(start, p, next, bins0);
      } else {
        FreeForward(start, p, next, bins0);
        e := next + h0.chunks[next].size;
      }
      ListsAside(s1, s0, q, e, Stock());
      LinkKeptJoin(m0, m1, link, bins0, bins1, free.bins);
      PayloadsMissed(h0, m0, bins0, dv0, dvsize0, Segment(), link, free.bins, dv, dvsize);
    }

    /** The fused block joins the top chunk. */
    method FreeToTop(q: nat, p: nat, ghost bins0: map<nat, nat>)
      requires BinsValid() && HeapOk(Segment()) && FreeMatch(chunks, bins0, dv, dvsize)
      requires Block(chunks, q, p, top)
      requires forall a :: a in chunks && a + chunks[a].size == q ==> chunks[a].used
      requires LeftOut(bins0, free.bins, q, top) && (dvsize != 0 && q <= dv < top ==> dv == q)
      modifies this`head, this`chunks, this`top, this`topsize, this`dv, this`dvsize
      ensures Valid() && top + topsize == old(top + topsize) && Live(chunks) == old(Live(chunks)) - {p}
      ensures TagsKept(old(Segment()), Segment())
      ensures BlockFreed(old(Stock()).(bins := bins0), q, old(top), Stock())
    {
      hide BinsOk, HeapOk, Below, FreeMatch, Live, BlockFreed, TagsKept;
      ghost var cs0, h0, s0 := chunks, Segment(), Stock().(bins := bins0);
      MatchDv(h0, bins0, dv, dvsize);
      FuseTop(h0, q);
      BlockTop(h0, bins0, dv, dvsize, q, p);
      topsize := topsize + (top - q);
      top := q;
      head := head[q := Head(topsize, false, true)];
      chunks := Below(chunks, q);
      FreedTopIs(h0, q);
      if q == dv {
        dv := NULL;
        dvsize := 0;
      }
      BlockToTop(s0, q, Stock());
      BelowMatch(cs0, bins0, old(dv), old(dvsize), q, free.bins, dv, dvsize);
    }

    /** Consolidate forward with the free chunk `next`. */
    method FreeForward(q: nat, p: nat, next: nat, ghost bins0: map<nat, nat>)
      requires BinsValid() && HeapOk(Segment()) && FreeMatch(chunks, bins0, dv, dvsize)
      requires Block(chunks, q, p, next) && next in chunks && !chunks[next].used
      requires forall a :: a in chunks && a + chunks[a].size == q ==> chunks[a].used
      requires LeftOut(bins0, free.bins, q, next) && (dvsize != 0 && q <= dv < next ==> dv == q)
      modifies this
      ensures Valid() && Live(chunks) == old(Live(chunks)) - {p} && first == old(first)
        && top + topsize == old(top + topsize)
      ensures LinkKept(old(link), link, old(free.bins), free.bins)
      ensures TagsKept(old(Segment()), Segment())
      ensures var e := next + old(chunks)[next].size;
        FreeBlock(old(Segment()), p, q, e) && BlockFreed(old(Stock()).(bins := bins0), q, e, Stock())
    {
      hide BinsOk, HeapOk, FreeMatch, Live, LeftOut, BlockFreed, LinkKept, TagsKept;
      ghost var h0 := Segment();
      ghost var s0, m0, bins1 := Stock().(bins := bins0), link, free.bins;
      TopBounds(h0);
      NothingKept(h0, m0, bins1);
      ChunkFits(h0, next);
      FreeNeighbours(h0, next);
      MatchFree(chunks, bins0, dv, dvsize, next);
      MatchDv(h0, bins0, dv, dvsize);
      var nsize := head[next].size;
      var e := next + nsize;
      ForwardBlock(h0, bins0, dv, dvsize, q, p, next, free.bins);
      if next == dv {
        JoinVictim(q, p, next, bins0);
      } else {
        UnlinkChunk(next, nsize);
        ghost var m2, bins2, s2 := link, free.bins, Stock().(bins := bins0);
        Settle(q, p, e, bins0);
        ListsAside(s2, s0, q, e, Stock());
        LinkKeptJoin(m0, m2, link, bins1, bins2, free.bins);
      }
    }

    /** The designated victim, right behind the block, takes it in. */
    method JoinVictim(q: nat, p: nat, next: nat, ghost bins0: map<nat, nat>)
      requires BinsValid() && HeapOk(Segment()) && FreeMatch(chunks, bins0, dv, dvsize)
      requires next == dv && dvsize != 0 && q < next && Block(chunks, q, p, next + dvsize)
      requires next + dvsize in chunks && chunks[next + dvsize].used
      requires forall a :: a in chunks && a + chunks[a].size == q ==> chunks[a].used
      requires LeftOut(bins0, free.bins, q, next + dvsize)
      modifies this`head, this`foot, this`chunks, this`dv, this`dvsize
      ensures Valid() && Live(chunks) == old(Live(chunks)) - {p} && TagsKept(old(Segment()), Segment())
      ensures BlockFreed(old(Stock()).(bins := bins0), q, old(next + dvsize), Stock())
    {
      hide BinsOk, HeapOk, FreeMatch, Fused, Live, LeftOut, BlockFreed, TagsKept;
      ghost var cs0, h0, s0 := chunks, Segment(), Stock().(bins := bins0);
      var e := next + dvsize;
      TopBounds(h0);
      BlockLive(cs0, q, p, e);
      BlockSize(h0, q, p, e);
      MarkFree(q, e);
      dvsize := dvsize + (next - q);
      dv := q;
      BlockVictim(s0, q, e, Stock());
      FusedDv(cs0, bins0, old(dv), old(dvsize), q, p, e, free.bins);
    }

    /** One call by a valid caller who owns the chunks at `owned`. */
    method Serve(r: Request, owned: set<nat>) returns (mem: nat, owned': set<nat>)
      requires Valid() && owned == Live(chunks).Keys && (r.Alloc? ==> r.bytes < SIZE_T_RANGE)
      modifies this
      ensures Valid() && first == old(first) && top + topsize == old(top + topsize)
      ensures owned' == Live(chunks).Keys == After(owned, r, mem)
      ensures Called(old(Now()), r, mem, Now())
    {
      hide BinsOk, HeapOk, FreeMatch, Live, Clear, PayloadsKept;
      mem, owned' := NULL, owned;
      NothingKept(Segment(), link, free.bins);
      PayloadsMissed(Segment(), link, free.bins, dv, dvsize, Segment(), link, free.bins, dv, dvsize);
      match r {
        case Alloc(bytes) =>
          mem := Malloc(bytes);
          if mem != NULL {
            owned' := owned + {mem - CHUNK_OVERHEAD};
            GrantFits(Segment(), old(Live(chunks)), mem - CHUNK_OVERHEAD, bytes);
          }
        case Release(m) =>
          if CHUNK_OVERHEAD <= m && m - CHUNK_OVERHEAD in owned {
            var _, _ := Free(m);
            owned' := owned - {m - CHUNK_OVERHEAD};
          }
      }
    }

    /** Any sequence of calls by valid callers.  Every reply is as it should be
        for the chunks in use at that point; these are always exactly those handed
        out and not yet given back, and the segment keeps its extent. */
    method Run(requests: seq<Request>, start: set<nat>)
      returns (replies: seq<nat>, owned: set<nat>, ghost words: seq<Words>)
      requires Valid() && start == Live(chunks).Keys
      requires forall i :: 0 <= i < |requests| && requests[i].Alloc? ==> requests[i].bytes < SIZE_T_RANGE
      modifies this
      ensures Valid() && first == old(first) && top + topsize == old(top + topsize)
      ensures |replies| == |requests| && owned == Live(chunks).Keys == Owned(start, requests, replies)
      ensures |words| == |requests| + 1 && words[0] == old(Now()) && words[|requests|] == Now()
      ensures forall i :: 0 <= i < |requests| ==>
        InUse(words[i]).Keys == Owned(start, requests[..i], replies[..i])
          && Called(words[i], requests[i], replies[i], words[i + 1])
    {
      hide Valid, Live, After, Called;
      replies, owned, words := [], start, [Now()];
      for i := 0 to |requests|
        invariant Valid() && first == old(first) && top + topsize == old(top + topsize)
        invariant |replies| == i && owned == Live(chunks).Keys == Owned(start, requests[..i], replies)
        invariant |words| == i + 1 && words[0] == old(Now()) && words[i] == Now()
        invariant forall k :: 0 <= k < i ==>
          InUse(words[k]).Keys == Owned(start, requests[..k], replies[..k])
            && Called(words[k], requests[k], replies[k], words[k + 1])
      {
        var mem;
        mem, owned := Serve(requests[i], owned);
        assert requests[..i + 1][..i] == requests[..i];
        assert (replies + [mem])[..i] == replies;
        assert forall k :: 0 <= k < i ==> (replies + [mem])[..k] == replies[..k];
        replies, words := replies + [mem], words + [Now()];
      }
      assert requests[..|requests|] == requests;
    }

    /** Where a free chunk is, in every state the operations can reach: between
        chunks in use, and the designated victim or else in exactly one bin, the
        one its size belongs to, whose map bit is set. */
    lemma FreeChunk(a: nat)
      requires Valid() && a in chunks && !chunks[a].used
      ensures a + chunks[a].size in chunks && chunks[a + chunks[a].size].used
      ensures forall b :: b in chunks && b + chunks[b].size == a ==> chunks[b].used
      ensures if dvsize != 0 && a == dv then chunks[a].size == dvsize && InNoBinBut(free, a, NSMALLBINS, NTREEBINS)
        else InOwnBin(State(), free, a, chunks[a].size)
    {
      hide TreeIndex, TreeOk, Addrs, SmallOk;
      FreeNeighbours(Segment(), a);
      var z := chunks[a].size;
      if dvsize != 0 && a == dv {
        assert a !in free.bins;
      } else if z < MIN_LARGE {
        var _ := SmallBinOf(State(), free, a);
        SmallBinAt(State(), free, z / 8);
        SmallSize(free, z / 8, a);
      } else {
        TreeBinOf(State(), free, a);
        TreeBinAt(State(), free, TreeIndex(z));
      }
    }
  }

  /** The chunk of size `z` is in the bin for its size, a marked one, and in no other. */
  ghost predicate InOwnBin(s: BinState, f: FreeLists, a: nat, z: nat) {
    if z < MIN_LARGE then z / 8 in s.smallmap && InNoBinBut(f, a, z / 8, NTREEBINS)
    else TreeIndex(z) in s.treemap && InNoBinBut(f, a, NSMALLBINS, TreeIndex(z))
  }

  /** The chunk is in small bin `i` and tree bin `j`, as far as they exist, and in
      no other. */
  ghost predicate InNoBinBut(f: FreeLists, a: nat, i: nat, j: nat) {
    && (forall k :: 0 <= k < |f.small| ==> (a in f.small[k] <==> k == i))
    && (forall k :: 0 <= k < |f.trees| ==> (a in Addrs(f.trees[k]) <==> k == j))
  }

  /** Calls a client makes; releasing an address that is not a live payload is
      left to valid callers and skipped. */
  datatype Request = Alloc(bytes: nat) | Release(mem: nat)

  /** Two chunks in use, or about to be, share no byte. */
  predicate Clear(a: nat, z: nat, b: nat, y: nat) { a + z <= b || b + y <= a }

  /** A reply and what it did to the chunks in use: a new chunk is apart from all
      of them and holds the request; a refusal changes nothing; a release takes
      exactly its chunk away. */
  ghost predicate Answered(live: map<nat, nat>, r: Request, reply: nat, live': map<nat, nat>) {
    match r
    case Alloc(bytes) =>
      if reply == NULL then live' == live
      else
        reply >= CHUNK_OVERHEAD
        && var p := reply - CHUNK_OVERHEAD;
        && p !in live && p in live' && live' == live[p := live'[p]]
        && p + live'[p] >= reply + bytes
        && forall b :: b in live ==> Clear(p, live'[p], b, live[b])
    case Release(m) =>
      live' == if m >= CHUNK_OVERHEAD then live - {m - CHUNK_OVERHEAD} else live
  }

  /** The memory words of the mspace at one time, and the chunks in use then. */
  datatype Words = Words(heap: HeapState, link: LinkMap)

  ghost function InUse(w: Words): map<nat, nat> { Live(w.heap.chunks) }

  ghost predicate Called(w: Words, r: Request, reply: nat, w': Words) {
    Answered(InUse(w), r, reply, InUse(w')) && PayloadsKept(w.heap, w.link, w'.heap, w'.link)
  }

  /** A chunk that is in use from one time to a later one keeps its size, and no
      call between writes a word of its payload. */
  lemma {:induction false} HeldThroughout(words: seq<Words>, requests: seq<Request>, replies: seq<nat>, i: nat, j: nat,
      a: nat)
    requires i < j <= |requests| == |replies| && |words| == |requests| + 1
    requires forall k :: i <= k < j ==> Called(words[k], requests[k], replies[k], words[k + 1])
    requires forall k :: i <= k <= j ==> a in InUse(words[k])
    ensures InUse(words[j])[a] == InUse(words[i])[a]
    ensures ChunkKept(words[i].heap, words[i].link, words[j].heap, words[j].link, a)
    decreases j
  {
    hide ChunkKept;
    var w, w' := words[j - 1], words[j];
    assert Called(w, requests[j - 1], replies[j - 1], w') && a in InUse(w) && a in InUse(w');
    assert InUse(w')[a] == InUse(w)[a];
    if i < j - 1 {
      HeldThroughout(words, requests, replies, i, j - 1, a);
      ChunkKeptJoin(words[i].heap, words[i].link, w.heap, w.link, w'.heap, w'.link, a);
    }
  }

  /** A chunk just taken into use is big enough for the payload, and apart from the
      others. */
  lemma GrantFits(h: HeapState, live: map<nat, nat>, p: nat, bytes: nat)
    requires HeapOk(h) && bytes < SIZE_T_RANGE && p !in live && p in Live(h.chunks)
      && Live(h.chunks) == live[p := Live(h.chunks)[p]]
    requires ChunkSizeFor(bytes) <= Live(h.chunks)[p]
    ensures bytes + CHUNK_OVERHEAD <= Live(h.chunks)[p]
    ensures forall b :: b in live ==> Clear(p, Live(h.chunks)[p], b, live[b])
  {
    hide Tiled, Aligned, Tagged;
    ChunkFits(h, p);
    forall b | b in live ensures Clear(p, Live(h.chunks)[p], b, live[b]) {
      assert b in Live(h.chunks) && Live(h.chunks)[b] == live[b];
      TiledApart(h, p, b);
    }
  }

  lemma TiledApart(h: HeapState, a: nat, b: nat)
    requires HeapOk(h) && a in h.chunks && b in h.chunks && a != b
    ensures Clear(a, h.chunks[a].size, b, h.chunks[b].size)
  {
    assert Disjoint(h.chunks, a, b);
  }

  /** Chunk addresses a client owns after a sequence of calls and replies. */
  ghost function Owned(start: set<nat>, requests: seq<Request>, replies: seq<nat>): set<nat>
    requires |requests| == |replies|
    decreases |requests|
  {
    if requests == [] then start else
    var n := |requests| - 1;
    After(Owned(start, requests[..n], replies[..n]), requests[n], replies[n])
  }

  ghost function After(owned: set<nat>, r: Request, reply: nat): set<nat> {
    match r
    case Alloc(_) => if reply < CHUNK_OVERHEAD then owned else owned + {reply - CHUNK_OVERHEAD}
    case Release(m) => if m < CHUNK_OVERHEAD then owned else owned - {m - CHUNK_OVERHEAD}
  }

  lemma EmptyBins(s: BinState)
    requires s.smallmap == {} && s.treemap == {} && s.treebins == seq(NTREEBINS, i => NULL) && NULL !in s.link
    requires forall j :: 0 <= j < NSMALLBINS ==> SmallHdr(j) in s.link
    ensures BinsOk(s, FreeLists(seq(NSMALLBINS, i => []), seq(NTREEBINS, i => Nil), map[]))
  {
  }

  /** The 32-bit narrowing of the index macro: a chunk of 2^40 bytes is filed
      in bin 0, where a request half its size does not look. */
  lemma IndexNarrows()
    ensures TreeIndex(INDEX_LIMIT) == 0 && TreeIndex(INDEX_LIMIT / 2) == NTREEBINS - 1
    ensures NextMarked({0}, NTREEBINS - 1) == NTREEBINS
  {
    assert INDEX_LIMIT / 256 % 0x1_0000_0000 == 0;
    assert INDEX_LIMIT / 2 / 256 % 0x1_0000_0000 == 0x8000_0000;
  }
}
