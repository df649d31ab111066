/** The small bins and tree bins together: every binned free chunk is in
    exactly the bin its size belongs to, and a bin's map bit says whether it
    is empty. */
module Bins {
  import opened Sizes
  import opened Tries
  import opened Links
  import opened TreeBins
  import opened Unlinking

  /** The bin fields of the `malloc_state` and the link words of chunks. */
  datatype BinState = BinState(link: LinkMap, smallmap: set<nat>, treemap: set<nat>, treebins: seq<nat>)

  /** What the bins hold: chunk lists of the small bins (front first), tries of
      the tree bins, and the size of every binned chunk. */
  datatype FreeLists = FreeLists(small: seq<seq<nat>>, trees: seq<Trie>, bins: map<nat, nat>)

  ghost predicate SmallOk(m: LinkMap, list: seq<nat>, i: nat) {
    && SmallHdr(i) in m && Distinct(list)
    && (forall a :: a in list ==> a in m && a >= FIRST_CHUNK)
    && (list != [] ==> Ring(m, [SmallHdr(i)] + list))
  }

  ghost predicate TreeBinOk(m: LinkMap, root: nat, t: Trie, i: nat, sizes: map<nat, nat>) {
    root == Root(t) && TreeOk(m, t, i, sizes, BinLow(i), BinBits(i))
  }

  predicate InBin(f: FreeLists, a: nat, s: nat)
    requires |f.small| == NSMALLBINS && |f.trees| == NTREEBINS
  {
    if s < MIN_LARGE then a in f.small[s / 8] else a in Addrs(f.trees[TreeIndex(s)])
  }

  /** A free chunk is in the bin its size belongs to, and nowhere else. */
  ghost predicate Placed(f: FreeLists)
    requires |f.small| == NSMALLBINS && |f.trees| == NTREEBINS
  {
    && (forall a :: a in f.bins ==> MIN_CHUNK <= f.bins[a] < INDEX_LIMIT && InBin(f, a, f.bins[a]))
    && (forall i, a :: 0 <= i < NSMALLBINS && a in f.small[i] ==> a in f.bins && f.bins[a] == 8 * i)
    && (forall i, a :: 0 <= i < NTREEBINS && a in Addrs(f.trees[i]) ==>
         a in f.bins && MIN_LARGE <= f.bins[a] && TreeIndex(f.bins[a]) == i)
  }

  lemma SmallSize(f: FreeLists, i: nat, a: nat)
    requires |f.small| == NSMALLBINS && |f.trees| == NTREEBINS && Placed(f) && i < NSMALLBINS && a in f.small[i]
    ensures a in f.bins && f.bins[a] == 8 * i
    ensures forall j :: 0 <= j < NTREEBINS ==> a !in Addrs(f.trees[j])
    ensures forall j :: 0 <= j < NSMALLBINS && j != i ==> a !in f.small[j]
  {
  }

  ghost predicate Shaped(s: BinState, f: FreeLists) {
    && |f.small| == NSMALLBINS && |f.trees| == NTREEBINS && |s.treebins| == NTREEBINS
    && NULL !in s.link
    && (forall i :: i in s.smallmap ==> i < NSMALLBINS) && (forall i :: i in s.treemap ==> i < NTREEBINS)
  }

  ghost predicate SmallBinsOk(s: BinState, f: FreeLists)
    requires Shaped(s, f)
  {
    forall i :: 0 <= i < NSMALLBINS ==> SmallOk(s.link, f.small[i], i) && (i in s.smallmap <==> f.small[i] != [])
  }

  ghost predicate TreeBinsOk(s: BinState, f: FreeLists)
    requires Shaped(s, f)
  {
    forall i :: 0 <= i < NTREEBINS ==>
      TreeBinOk(s.link, s.treebins[i], f.trees[i], i, f.bins) && (i in s.treemap <==> f.trees[i].Node?)
  }

  ghost predicate BinsOk(s: BinState, f: FreeLists) {
    Shaped(s, f) && SmallBinsOk(s, f) && TreeBinsOk(s, f) && Placed(f)
  }

  lemma SmallBinAt(s: BinState, f: FreeLists, i: nat)
    requires BinsOk(s, f) && i < NSMALLBINS
    ensures |f.small| == NSMALLBINS && SmallOk(s.link, f.small[i], i)
    ensures i in s.smallmap <==> f.small[i] != []
    ensures NULL !in s.link && SmallHdr(i) in s.link
    ensures forall a :: a in f.small[i] ==> a in f.bins && f.bins[a] == 8 * i && a in s.link && a >= FIRST_CHUNK
  {
    assert SmallOk(s.link, f.small[i], i);
  }

  lemma SmallBinOf(s: BinState, f: FreeLists, p: nat) returns (pos: nat)
    requires BinsOk(s, f) && p in f.bins && f.bins[p] < MIN_LARGE
    ensures |f.small| == NSMALLBINS && pos < |f.small[f.bins[p] / 8]| && f.small[f.bins[p] / 8][pos] == p
  {
    assert InBin(f, p, f.bins[p]);
    pos :| pos < |f.small[f.bins[p] / 8]| && f.small[f.bins[p] / 8][pos] == p;
  }

  lemma TreeBinOf(s: BinState, f: FreeLists, x: nat)
    requires BinsOk(s, f) && x in f.bins && MIN_LARGE <= f.bins[x]
    ensures |f.trees| == NTREEBINS && x in Addrs(f.trees[TreeIndex(f.bins[x])])
  {
    assert InBin(f, x, f.bins[x]);
  }

  lemma TreeBinAt(s: BinState, f: FreeLists, i: nat)
    requires BinsOk(s, f) && i < NTREEBINS
    ensures |f.trees| == NTREEBINS && |s.treebins| == NTREEBINS && s.treebins[i] == Root(f.trees[i])
    ensures TreeOk(s.link, f.trees[i], i, f.bins, BinLow(i), BinBits(i))
    ensures i in s.treemap <==> f.trees[i].Node?
    ensures if f.trees[i].Nil? then Addrs(f.trees[i]) == {} else f.trees[i].ring != []
    ensures NULL !in s.link
    ensures forall a :: a in Addrs(f.trees[i]) ==>
      a in f.bins && MIN_LARGE <= f.bins[a] < INDEX_LIMIT && TreeIndex(f.bins[a]) == i
  {
    hide TreeIndex, BinLow, BinBits, Spans, Apart, Fits, SmallBinsOk;
    assert TreeBinOk(s.link, s.treebins[i], f.trees[i], i, f.bins);
  }

  // ----- frames -----

  lemma SmallFrame(m: LinkMap, m': LinkMap, list: seq<nat>, i: nat)
    requires SmallOk(m, list, i)
    requires forall a :: (a == SmallHdr(i) || a in list) && a in m ==> a in m' && m'[a] == m[a]
    ensures SmallOk(m', list, i)
  {
    if list != [] {
      RingFrame(m, m', [SmallHdr(i)] + list);
    }
  }

  lemma TreeBinFrame(m: LinkMap, m': LinkMap, root: nat, t: Trie, i: nat, sizes: map<nat, nat>, sizes': map<nat, nat>)
    requires TreeBinOk(m, root, t, i, sizes)
    requires forall a :: a in Addrs(t) && a in m ==> a in m' && m'[a] == m[a]
    requires forall a :: a in Addrs(t) && a in sizes ==> a in sizes' && sizes'[a] == sizes[a]
    ensures TreeBinOk(m', root, t, i, sizes')
  {
    LinkedFrame(m, m', t, TreeHdr(i), i);
    FitsFrame(t, sizes, sizes');
  }

  lemma TreeChunkFacts(s: BinState, f: FreeLists, i: nat, a: nat)
    requires BinsOk(s, f) && i < NTREEBINS && a in Addrs(f.trees[i])
    ensures a in s.link && a >= FIRST_CHUNK && a in f.bins && s.link[a].index == i
  {
    LinkedAddr(s.link, f.trees[i], TreeHdr(i), i, a);
  }

  // ----- one tree bin changes -----

  function WithTree(f: FreeLists, i: nat, t: Trie, bins: map<nat, nat>): FreeLists
    requires i < |f.trees|
  {
    f.(trees := f.trees[i := t], bins := bins)
  }

  function WithRoot(s: BinState, m: LinkMap, i: nat, t: Trie): BinState
    requires i < |s.treebins|
  {
    BinState(m, s.smallmap, if t.Nil? then s.treemap - {i} else s.treemap + {i}, s.treebins[i := Root(t)])
  }

  /** The bins a tree operation on bin `i` must not disturb. */
  lemma TreeOthers(s: BinState, f: FreeLists, m': LinkMap, i: nat, x: nat, t': Trie, bins': map<nat, nat>)
    requires BinsOk(s, f) && i < NTREEBINS && NULL !in m'
    requires x in Addrs(f.trees[i]) || (x !in f.bins && x >= FIRST_CHUNK)
    requires forall b :: b in s.link && b != x && b !in Addrs(f.trees[i]) ==> b in m' && m'[b] == s.link[b]
    requires forall a :: a in f.bins && a != x ==> a in bins' && bins'[a] == f.bins[a]
    requires TreeOk(m', t', i, bins', BinLow(i), BinBits(i))
    ensures Shaped(WithRoot(s, m', i, t'), WithTree(f, i, t', bins'))
    ensures SmallBinsOk(WithRoot(s, m', i, t'), WithTree(f, i, t', bins'))
    ensures TreeBinsOk(WithRoot(s, m', i, t'), WithTree(f, i, t', bins'))
  {
    hide TreeOk;
    var s', f' := WithRoot(s, m', i, t'), WithTree(f, i, t', bins');
    forall j | 0 <= j < NSMALLBINS ensures SmallOk(m', f.small[j], j) {
      SmallApart(s, f, i, x, j);
      SmallFrame(s.link, m', f.small[j], j);
    }
    forall j | 0 <= j < NTREEBINS
      ensures TreeBinOk(m', s'.treebins[j], f'.trees[j], j, bins') && (j in s'.treemap <==> f'.trees[j].Node?)
    {
      if j != i {
        TreesApart(s, f, i, x, j);
        TreeBinFrame(s.link, m', s.treebins[j], f.trees[j], j, f.bins, bins');
      }
    }
  }

  lemma SmallApart(s: BinState, f: FreeLists, i: nat, x: nat, j: nat)
    requires BinsOk(s, f) && i < NTREEBINS && j < NSMALLBINS
    requires x in Addrs(f.trees[i]) || (x !in f.bins && x >= FIRST_CHUNK)
    ensures SmallOk(s.link, f.small[j], j) && SmallHdr(j) != x && SmallHdr(j) !in Addrs(f.trees[i])
    ensures forall a :: a in f.small[j] ==> a != x && a !in Addrs(f.trees[i])
    ensures j in s.smallmap <==> f.small[j] != []
  {
    if SmallHdr(j) in Addrs(f.trees[i]) { TreeChunkFacts(s, f, i, SmallHdr(j)); }
    forall a | a in f.small[j] ensures a != x && a !in Addrs(f.trees[i]) { SmallSize(f, j, a); }
  }

  lemma TreesApart(s: BinState, f: FreeLists, i: nat, x: nat, j: nat)
    requires BinsOk(s, f) && i < NTREEBINS && j < NTREEBINS && i != j
    requires x in Addrs(f.trees[i]) || x !in f.bins
    ensures TreeBinOk(s.link, s.treebins[j], f.trees[j], j, f.bins)
    ensures forall a :: a in Addrs(f.trees[j]) ==> a != x && a !in Addrs(f.trees[i]) && a in f.bins
    ensures j in s.treemap <==> f.trees[j].Node?
  {
    hide TreeIndex, Addrs, SmallBinsOk;
    assert TreeBinOk(s.link, s.treebins[j], f.trees[j], j, f.bins);
    forall a | a in Addrs(f.trees[j]) ensures a != x && a !in Addrs(f.trees[i]) && a in f.bins {
      assert TreeIndex(f.bins[a]) == j;
    }
  }

  lemma TreeKept(s: BinState, f: FreeLists, m': LinkMap, i: nat, x: nat, bins': map<nat, nat>)
    requires BinsOk(s, f) && i < NTREEBINS && (x in f.bins || x in bins') && m'.Keys == s.link.Keys + {x}
    requires forall b :: b in s.link && b != x && b !in Addrs(f.trees[i]) ==> b in m' && m'[b] == s.link[b]
    ensures LinkKept(s.link, m', f.bins, bins')
  {
    hide BinsOk;
    TreeBinAt(s, f, i);
  }

  lemma TreeInserted(s: BinState, f: FreeLists, m': LinkMap, i: nat, x: nat, z: nat, t': Trie)
    requires BinsOk(s, f) && x !in f.bins && x >= FIRST_CHUNK && NULL !in m'
    requires MIN_LARGE <= z < INDEX_LIMIT && TreeIndex(z) == i
    requires forall b :: b in s.link && b != x && b !in Addrs(f.trees[i]) ==> b in m' && m'[b] == s.link[b]
    requires TreeOk(m', t', i, f.bins[x := z], BinLow(i), BinBits(i)) && Addrs(t') == Addrs(f.trees[i]) + {x}
    requires m'.Keys == s.link.Keys + {x}
    ensures LinkKept(s.link, m', f.bins, f.bins[x := z])
    ensures BinsOk(WithRoot(s, m', i, t'), WithTree(f, i, t', f.bins[x := z]))
  {
    hide TreeOk, SmallBinsOk, TreeBinsOk, TreeIndex, Placed;
    TreeOthers(s, f, m', i, x, t', f.bins[x := z]);
    TreePlaced(f, i, x, z, t');
    TreeKept(s, f, m', i, x, f.bins[x := z]);
  }

  lemma TreePlaced(f: FreeLists, i: nat, x: nat, z: nat, t': Trie)
    requires |f.small| == NSMALLBINS && |f.trees| == NTREEBINS && Placed(f)
    requires x !in f.bins && MIN_LARGE <= z < INDEX_LIMIT && TreeIndex(z) == i
    requires Addrs(t') == Addrs(f.trees[i]) + {x}
    ensures Placed(WithTree(f, i, t', f.bins[x := z]))
  {
    hide TreeIndex, Addrs;
  }

  lemma TreeRemoved(s: BinState, f: FreeLists, m': LinkMap, i: nat, x: nat, t': Trie)
    requires BinsOk(s, f) && i < NTREEBINS && x in Addrs(f.trees[i]) && NULL !in m'
    requires forall b :: b in s.link && b !in Addrs(f.trees[i]) ==> b in m' && m'[b] == s.link[b]
    requires TreeOk(m', t', i, f.bins, BinLow(i), BinBits(i)) && Addrs(t') == Addrs(f.trees[i]) - {x}
    requires m'.Keys == s.link.Keys
    ensures LinkKept(s.link, m', f.bins, f.bins - {x})
    ensures BinsOk(WithRoot(s, m', i, t'), WithTree(f, i, t', f.bins - {x}))
  {
    hide SmallBinsOk, TreeBinsOk, TreeIndex, BinLow, BinBits, Linked, Apart, Spans, Placed;
    FitsFrame(t', f.bins, f.bins - {x});
    TreeOthers(s, f, m', i, x, t', f.bins - {x});
    TreeUnplaced(f, i, x, t');
    assert x in f.bins && x in s.link by { TreeChunkFacts(s, f, i, x); }
    TreeKept(s, f, m', i, x, f.bins - {x});
  }

  lemma TreeUnplaced(f: FreeLists, i: nat, x: nat, t': Trie)
    requires |f.small| == NSMALLBINS && |f.trees| == NTREEBINS && Placed(f)
    requires i < NTREEBINS && x in Addrs(f.trees[i]) && Addrs(t') == Addrs(f.trees[i]) - {x}
    ensures Placed(WithTree(f, i, t', f.bins - {x}))
  {
    hide TreeIndex, Addrs;
    var f' := WithTree(f, i, t', f.bins - {x});
    forall a | a in f'.bins ensures InBin(f', a, f'.bins[a]) { assert InBin(f, a, f.bins[a]); }
    forall j, a | 0 <= j < NSMALLBINS && a in f.small[j] ensures a in f'.bins && f'.bins[a] == 8 * j {
      SmallSize(f, j, a);
    }
    forall j, a | 0 <= j < NTREEBINS && a in Addrs(f'.trees[j])
      ensures a in f'.bins && MIN_LARGE <= f'.bins[a] && TreeIndex(f'.bins[a]) == j
    {
      assert a in Addrs(f.trees[j]) && a in f.bins && TreeIndex(f.bins[a]) == j;
      assert TreeIndex(f.bins[x]) == i;
    }
  }

  // ----- one small bin changes -----

  function WithSmall(f: FreeLists, i: nat, list: seq<nat>, bins: map<nat, nat>): FreeLists
    requires i < |f.small|
  {
    f.(small := f.small[i := list], bins := bins)
  }

  function WithList(s: BinState, m: LinkMap, i: nat, list: seq<nat>): BinState {
    BinState(m, if list == [] then s.smallmap - {i} else s.smallmap + {i}, s.treemap, s.treebins)
  }

  lemma SmallOthers(s: BinState, f: FreeLists, m': LinkMap, i: nat, x: nat, list': seq<nat>, bins': map<nat, nat>)
    requires BinsOk(s, f) && i < NSMALLBINS && NULL !in m'
    requires x in f.small[i] || (x !in f.bins && x >= FIRST_CHUNK)
    requires forall b :: b in s.link && b != x && b !in f.small[i] && b != SmallHdr(i) ==> b in m' && m'[b] == s.link[b]
    requires forall a :: a in f.bins && a != x ==> a in bins' && bins'[a] == f.bins[a]
    requires SmallOk(m', list', i)
    ensures Shaped(WithList(s, m', i, list'), WithSmall(f, i, list', bins'))
    ensures SmallBinsOk(WithList(s, m', i, list'), WithSmall(f, i, list', bins'))
    ensures TreeBinsOk(WithList(s, m', i, list'), WithSmall(f, i, list', bins'))
  {
    var s', f' := WithList(s, m', i, list'), WithSmall(f, i, list', bins');
    forall j | 0 <= j < NSMALLBINS
      ensures SmallOk(m', f'.small[j], j) && (j in s'.smallmap <==> f'.small[j] != [])
    {
      if j != i {
        SmallsApart(s, f, i, x, j);
        SmallFrame(s.link, m', f.small[j], j);
      }
    }
    forall j | 0 <= j < NTREEBINS ensures TreeBinOk(m', s.treebins[j], f.trees[j], j, bins') {
      TreeFromSmall(s, f, i, x, j);
      TreeBinFrame(s.link, m', s.treebins[j], f.trees[j], j, f.bins, bins');
    }
  }

  lemma SmallsApart(s: BinState, f: FreeLists, i: nat, x: nat, j: nat)
    requires BinsOk(s, f) && i < NSMALLBINS && j < NSMALLBINS && i != j
    requires x in f.small[i] || (x !in f.bins && x >= FIRST_CHUNK)
    ensures SmallOk(s.link, f.small[j], j) && SmallHdr(j) != x && SmallHdr(j) !in f.small[i]
    ensures SmallHdr(j) != SmallHdr(i) && SmallHdr(i) !in f.small[j]
    ensures forall a :: a in f.small[j] ==> a != x && a !in f.small[i]
    ensures j in s.smallmap <==> f.small[j] != []
  {
    assert SmallOk(s.link, f.small[i], i) && SmallOk(s.link, f.small[j], j);
    forall a | a in f.small[j] ensures a != x && a !in f.small[i] { SmallSize(f, j, a); }
  }

  lemma TreeFromSmall(s: BinState, f: FreeLists, i: nat, x: nat, j: nat)
    requires BinsOk(s, f) && i < NSMALLBINS && j < NTREEBINS
    requires x in f.small[i] || (x !in f.bins && x >= FIRST_CHUNK)
    ensures TreeBinOk(s.link, s.treebins[j], f.trees[j], j, f.bins)
    ensures forall a :: a in Addrs(f.trees[j]) ==> a != x && a !in f.small[i] && a != SmallHdr(i) && a in f.bins
    ensures j in s.treemap <==> f.trees[j].Node?
  {
    if SmallHdr(i) in Addrs(f.trees[j]) { TreeChunkFacts(s, f, j, SmallHdr(i)); }
    forall a | a in Addrs(f.trees[j]) ensures a != x && a !in f.small[i] && a != SmallHdr(i) && a in f.bins {
      if a in f.small[i] { SmallSize(f, i, a); }
    }
  }

  lemma SmallKept(s: BinState, f: FreeLists, m': LinkMap, i: nat, x: nat, bins': map<nat, nat>)
    requires BinsOk(s, f) && i < NSMALLBINS && (x in f.bins || x in bins') && m'.Keys == s.link.Keys + {x}
    requires forall b :: b in s.link && b != x && b !in f.small[i] && b != SmallHdr(i) ==> b in m' && m'[b] == s.link[b]
    ensures LinkKept(s.link, m', f.bins, bins')
  {
    hide BinsOk;
    SmallBinAt(s, f, i);
  }

  lemma SmallInserted(s: BinState, f: FreeLists, m': LinkMap, i: nat, x: nat, list': seq<nat>)
    requires BinsOk(s, f) && x !in f.bins && x >= FIRST_CHUNK && NULL !in m'
    requires 4 <= i < NSMALLBINS && list' == [x] + f.small[i]
    requires forall b :: b in s.link && b != x && b !in f.small[i] && b != SmallHdr(i) ==> b in m' && m'[b] == s.link[b]
    requires SmallOk(m', list', i)
    requires m'.Keys == s.link.Keys + {x}
    ensures LinkKept(s.link, m', f.bins, f.bins[x := 8 * i])
    ensures BinsOk(WithList(s, m', i, list'), WithSmall(f, i, list', f.bins[x := 8 * i]))
  {
    hide SmallOk, SmallBinsOk, TreeBinsOk, Placed;
    SmallOthers(s, f, m', i, x, list', f.bins[x := 8 * i]);
    SmallPlaced(f, i, x, list');
    SmallKept(s, f, m', i, x, f.bins[x := 8 * i]);
  }

  lemma SmallPlaced(f: FreeLists, i: nat, x: nat, list': seq<nat>)
    requires |f.small| == NSMALLBINS && |f.trees| == NTREEBINS && Placed(f)
    requires x !in f.bins && 4 <= i < NSMALLBINS && list' == [x] + f.small[i]
    ensures Placed(WithSmall(f, i, list', f.bins[x := 8 * i]))
  {
    hide TreeIndex, Addrs;
    assert forall a :: a in list' <==> a == x || a in f.small[i];
  }

  lemma SmallRemoved(s: BinState, f: FreeLists, m': LinkMap, i: nat, x: nat, p: nat)
    requires BinsOk(s, f) && i < NSMALLBINS && p < |f.small[i]| && x == f.small[i][p] && NULL !in m'
    requires forall b :: b in s.link && b !in f.small[i] && b != SmallHdr(i) ==> b in m' && m'[b] == s.link[b]
    requires SmallOk(m', Without(f.small[i], p), i) && m'.Keys == s.link.Keys
    ensures LinkKept(s.link, m', f.bins, f.bins - {x})
    ensures BinsOk(WithList(s, m', i, Without(f.small[i], p)), WithSmall(f, i, Without(f.small[i], p), f.bins - {x}))
  {
    assert Distinct(f.small[i]) by { assert SmallOk(s.link, f.small[i], i); }
    hide SmallOk, SmallBinsOk, TreeBinsOk, Placed;
    var list' := Without(f.small[i], p);
    forall a ensures a in list' <==> a in f.small[i] && a != x { WithoutMembers(f.small[i], p, a); }
    SmallOthers(s, f, m', i, x, list', f.bins - {x});
    SmallUnplaced(f, i, x, list');
    assert x in f.bins && x in s.link by { SmallBinAt(s, f, i); }
    SmallKept(s, f, m', i, x, f.bins - {x});
  }

  lemma SmallUnplaced(f: FreeLists, i: nat, x: nat, list': seq<nat>)
    requires |f.small| == NSMALLBINS && |f.trees| == NTREEBINS && Placed(f)
    requires i < NSMALLBINS && x in f.small[i] && forall a :: a in list' <==> a in f.small[i] && a != x
    ensures Placed(WithSmall(f, i, list', f.bins - {x}))
  {
    hide TreeIndex, Addrs;
    SmallSize(f, i, x);
    var f' := WithSmall(f, i, list', f.bins - {x});
    forall a | a in f'.bins ensures InBin(f', a, f'.bins[a]) { assert InBin(f, a, f.bins[a]); }
    forall j, a | 0 <= j < NSMALLBINS && a in f'.small[j] ensures a in f'.bins && f'.bins[a] == 8 * j {
      SmallSize(f, j, a);
    }
  }

  /** Linking a chunk in at the front of its small bin; an unmarked bin's
      header may carry stale links. */
  lemma SmallRingInsert(m0: LinkMap, m: LinkMap, list: seq<nat>, i: nat, p: nat, f: nat)
    requires SmallOk(m0, list, i) && i < NSMALLBINS && p >= FIRST_CHUNK && p !in list && p in m
    requires forall b :: b in m0 && b != p ==> b in m && m[b] == m0[b]
    requires f == if list == [] then SmallHdr(i) else m0[SmallHdr(i)].fd
    ensures f in m && SmallHdr(i) in m && f != p && SmallOk(Inserted(m, p, SmallHdr(i), f), [p] + list, i)
    ensures forall b :: b in m && b != p && b !in list && b != SmallHdr(i) ==> Inserted(m, p, SmallHdr(i), f)[b] == m[b]
  {
    var ring := [SmallHdr(i)] + list;
    if list != [] {
      RingNeighbours(m0, ring, 0);
      RingFrame(m0, m, ring);
    }
    RingInsert(m, ring, p, f);
    assert [SmallHdr(i), p] + ring[1..] == [SmallHdr(i)] + ([p] + list);
  }

  lemma SmallNeighbours(m: LinkMap, list: seq<nat>, i: nat, pos: nat)
    requires SmallOk(m, list, i) && i < NSMALLBINS && pos < |list|
    ensures Distinct(list)
    ensures var p := list[pos];
      && p in m && m[p].fd in m && m[p].bk in m && m[p].fd != p && m[p].bk != p
      && (m[p].bk == m[p].fd <==> |list| == 1)
      && (pos == 0 ==> m[SmallHdr(i)].fd == p && m[p].bk == SmallHdr(i))
      && (m[p].fd in list || m[p].fd == SmallHdr(i)) && (m[p].bk in list || m[p].bk == SmallHdr(i))
  {
    var ring := [SmallHdr(i)] + list;
    RingNeighbours(m, ring, pos + 1);
    RingNeighbours(m, ring, 0);
  }

  /** Unlinking a chunk from its small bin; the last one leaves the header's
      links stale. */
  lemma SmallRingRemove(m: LinkMap, list: seq<nat>, i: nat, pos: nat)
    requires SmallOk(m, list, i) && i < NSMALLBINS && pos < |list|
    ensures var p := list[pos];
      && m[p].fd in m && m[p].bk in m
      && SmallOk(if |list| == 1 then m else Unlinked(m, p), Without(list, pos), i)
      && (forall b :: b in m && b !in list && b != SmallHdr(i) ==> Unlinked(m, p)[b] == m[b])
  {
    hide Ring, Unlinked, Without, Distinct;
    var ring, p := [SmallHdr(i)] + list, list[pos];
    assert SmallHdr(i) !in list;
    SmallNeighbours(m, list, i, pos);
    UnlinkStores(m, p);
    forall b | b in m && b !in list && b != SmallHdr(i) ensures Unlinked(m, p)[b] == m[b] { UnlinkedAt(m, p, b); }
    forall a ensures a in Without(list, pos) <==> a in list && a != p { WithoutMembers(list, pos, a); }
    WithoutMembers(list, pos, p);
    if |list| > 1 {
      WithoutHeader(list, SmallHdr(i), pos);
      RingRemove(m, ring, pos + 1);
    }
  }

  lemma WithoutHeader(list: seq<nat>, hdr: nat, pos: nat)
    requires pos < |list| && Distinct(list) && hdr !in list
    ensures Distinct([hdr] + list) && ([hdr] + list)[pos + 1] == list[pos]
    ensures Without([hdr] + list, pos + 1) == [hdr] + Without(list, pos)
  {
  }

  /** The four stores of `insert_small_chunk`, in the source's order. */
  lemma InsertStores(m: LinkMap, p: nat, b: nat, f: nat)
    requires p in m && b in m && f in m && p != b && p != f
    ensures WithBk(WithFd(WithBk(WithFd(m, b, p), f, p), p, f), p, b) == Inserted(m, p, b, f)
  {
  }

  lemma StoresKeep(m: LinkMap, b: nat, p: nat, f: nat)
    requires p in m && b in m && f in m
    ensures f in WithFd(m, b, p) && p in WithBk(WithFd(m, b, p), f, p)
    ensures p in WithFd(WithBk(WithFd(m, b, p), f, p), p, f)
    ensures Inserted(m, p, b, f).Keys == m.Keys
  {
  }

  lemma UnlinkStores(m: LinkMap, p: nat)
    requires p in m && m[p].fd in m && m[p].bk in m
    ensures m[p].bk in WithBk(m, m[p].fd, m[p].bk)
    ensures WithFd(WithBk(m, m[p].fd, m[p].bk), m[p].bk, m[p].fd) == Unlinked(m, p)
    ensures Unlinked(m, p).Keys == m.Keys
  {
  }

  /** The trie seen from a memory where only `x`, a chunk outside the bins,
      has been prepared. */
  lemma InsertReady(s: BinState, f: FreeLists, m: LinkMap, i: nat, x: nat, z: nat)
    requires BinsOk(s, f) && i < NTREEBINS && x !in f.bins
    requires forall b :: b in s.link && b != x ==> b in m && m[b] == s.link[b]
    ensures |f.trees| == NTREEBINS && x !in Addrs(f.trees[i])
    ensures TreeOk(m, f.trees[i], i, f.bins[x := z], BinLow(i), BinBits(i))
    ensures forall b :: b in s.link && b != x && b !in Addrs(f.trees[i]) ==> b in m && m[b] == s.link[b]
  {
    hide BinsOk, BinLow, BinBits, Linked, Apart, Spans, Fits;
    TreeBinAt(s, f, i);
    LinkedFrame(s.link, m, f.trees[i], TreeHdr(i), i);
    FitsFrame(f.trees[i], f.bins, f.bins[x := z]);
  }

  lemma InsertReadyUp(m: LinkMap, m': LinkMap, t: Trie, i: nat, x: nat, sizes: map<nat, nat>, lo: nat, k: nat)
    requires TreeOk(m, t, i, sizes, lo, k) && x !in Addrs(t)
    requires forall b :: b in m && b != x ==> b in m' && m'[b] == m[b]
    ensures TreeOk(m', t, i, sizes, lo, k)
  {
    hide Linked;
    LinkedFrame(m, m', t, TreeHdr(i), i);
  }

  /** No small bin from `idx` on is marked and no tree bin is: every binned
      chunk is smaller than 8 * idx. */
  lemma NothingBinned(s: BinState, f: FreeLists, idx: nat)
    requires BinsOk(s, f) && s.treemap == {} && forall j :: idx <= j < NSMALLBINS ==> j !in s.smallmap
    ensures forall a :: a in f.bins ==> f.bins[a] < 8 * idx
  {
    NoTreeChunks(s, f);
    forall a | a in f.bins ensures f.bins[a] < 8 * idx {
      var j := f.bins[a] / 8;
      var pos := SmallBinOf(s, f, a);
      SmallBinAt(s, f, j);
    }
  }

  lemma NoTreeChunks(s: BinState, f: FreeLists)
    requires BinsOk(s, f) && s.treemap == {}
    ensures forall a :: a in f.bins ==> f.bins[a] < MIN_LARGE
  {
    hide TreeIndex;
    forall a | a in f.bins ensures f.bins[a] < MIN_LARGE {
      if MIN_LARGE <= f.bins[a] {
        TreeBinOf(s, f, a);
        TreeBinAt(s, f, TreeIndex(f.bins[a]));
      }
    }
  }

  lemma NoHugeChunks(s: BinState, f: FreeLists)
    requires BinsOk(s, f)
    ensures forall a :: a in f.bins ==> f.bins[a] < INDEX_LIMIT
  {
  }
}
