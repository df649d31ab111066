/** Insertion, removal and search in the linked trie of one tree bin. */
module TreeBins {
  import opened Sizes
  import opened Tries
  import opened Links

  /** A trie of bin `i` for the size range [lo, lo + 2^k): linked in memory
      below the bin header, following the trie rule, every chunk of its node's
      size. */
  ghost predicate TreeOk(m: LinkMap, t: Trie, i: nat, sizes: map<nat, nat>, lo: nat, k: nat) {
    && Linked(m, t, TreeHdr(i), i) && Apart(t) && Spans(t, lo, k) && Fits(t, sizes)
  }

  lemma GraftOk(m: LinkMap, m': LinkMap, t: Trie, a: nat, s: Trie, i: nat, sizes: map<nat, nat>, lo: nat, k: nat)
    requires TreeOk(m, t, i, sizes, lo, k) && a in Addrs(t)
    requires Linked(m', s, UpAt(t, a, TreeHdr(i)), i) && Outside(m, m', t, a, s, TreeHdr(i))
    requires Apart(s) && SpansAt(t, a, lo, k, s) && Fits(s, sizes)
    requires forall b :: b in Addrs(s) && b in Addrs(t) ==> b in Addrs(SubAt(t, a))
    requires forall x :: x in SizeSet(s) && x in SizeSet(t) ==> x in SizeSet(SubAt(t, a))
    ensures TreeOk(m', Graft(t, a, s), i, sizes, lo, k)
    ensures Root(Graft(t, a, s)) == if a in t.ring then Root(s) else Root(t)
    ensures forall b :: b in Addrs(Graft(t, a, s)) <==> b in Addrs(s) || (b in Addrs(t) && b !in Addrs(SubAt(t, a)))
  {
    GraftLinked(m, m', t, a, s, TreeHdr(i), i);
    GraftApart(t, a, s);
    GraftSpans(t, a, s, lo, k);
    GraftFits(t, a, s, sizes);
    forall b ensures b in Addrs(Graft(t, a, s)) <==> b in Addrs(s) || (b in Addrs(t) && b !in Addrs(SubAt(t, a))) {
      GraftAddrs(t, a, s, b);
    }
  }

  lemma SubAtOk(m: LinkMap, t: Trie, a: nat, i: nat, sizes: map<nat, nat>, lo: nat, k: nat)
    requires TreeOk(m, t, i, sizes, lo, k) && a in Addrs(t)
    ensures Linked(m, SubAt(t, a), UpAt(t, a, TreeHdr(i)), i) && Apart(SubAt(t, a))
    ensures SpansAt(t, a, lo, k, SubAt(t, a)) && Fits(SubAt(t, a), sizes)
    ensures Addrs(SubAt(t, a)) <= Addrs(t) && SizeSet(SubAt(t, a)) <= SizeSet(t)
    ensures a in sizes && sizes[a] == SubAt(t, a).size
  {
    SubAtLinked(m, t, a, TreeHdr(i), i);
    SubAtApart(t, a);
    SubAtSpans(t, a, lo, k);
    SubAtFits(t, a, sizes);
    SubAtAddrs(t, a);
    SubAtSizes(t, a);
  }

  // ----- the walk down the size bits -----

  /** The walk for size `s` stands at node `a` with shifted size `w`: `s` lies
      in the node's interval, `w` holds its remaining bits left-aligned, and a
      node of size `s`, if there is one, is in this subtree. */
  ghost predicate Walk(t: Trie, lo: nat, k: nat, a: nat, s: nat, w: nat) {
    && a in Addrs(t) && Root(SubAt(t, a)) == a
    && WalkWord(w, s, LoAt(t, a, lo, k), KAt(t, a, k))
    && (s in SizeSet(t) ==> s in SizeSet(SubAt(t, a)))
  }

  lemma BinHolds(s: nat, i: nat)
    requires MIN_LARGE <= s < INDEX_LIMIT && TreeIndex(s) == i
    ensures i < NTREEBINS && BinLow(i) <= s < BinLow(i) + Pow2(BinBits(i))
  {
    TreeIndexRange(s);
    if i == NTREEBINS - 1 {
      LastBinHolds(s);
    } else {
      MinSizeStep(i);
    }
  }

  lemma LastBinHolds(s: nat)
    requires s < INDEX_LIMIT
    ensures s < Pow2(64)
  {
    Pow2Word();
  }

  lemma WalkBegin(t: Trie, i: nat, s: nat)
    requires i < NTREEBINS && BinLow(i) <= s < BinLow(i) + Pow2(BinBits(i))
    requires t.Node? && t.ring != []
    ensures Walk(t, BinLow(i), BinBits(i), Root(t), s, Shl(s, LeftShift(i))) && Root(t) in Addrs(t)
  {
    WalkStart(s, i);
    assert Root(t) in Members(t.ring);
  }

  function ChildOf(t: Trie, bit: nat): Trie
    requires t.Node?
  {
    if bit == 0 then t.l else t.r
  }

  /** One step of the walk, taken when the node does not have size `s`: either
      there is no child on that side, and no node of size `s`, or the walk goes
      on at the child. */
  lemma WalkStops(m: LinkMap, t: Trie, i: nat, sizes: map<nat, nat>, lo: nat, k: nat, a: nat, s: nat, w: nat)
    requires TreeOk(m, t, i, sizes, lo, k) && Walk(t, lo, k, a, s, w) && SubAt(t, a).size != s
    ensures KAt(t, a, k) > 0
    ensures ChildOf(SubAt(t, a), TopBit(w)).Nil? ==> s !in SizeSet(t)
  {
    SubAtSpans(t, a, lo, k);
    WalkHalf(SubAt(t, a), LoAt(t, a, lo, k), KAt(t, a, k), s, w);
  }

  lemma WalkDown(m: LinkMap, t: Trie, i: nat, sizes: map<nat, nat>, lo: nat, k: nat, a: nat, s: nat, w: nat, c: Trie)
    requires TreeOk(m, t, i, sizes, lo, k) && Walk(t, lo, k, a, s, w) && SubAt(t, a).size != s
    requires c == ChildOf(SubAt(t, a), TopBit(w)) && c.Node?
    ensures Walk(t, lo, k, Root(c), s, Shl1(w)) && Root(c) in Addrs(t)
    ensures SubAt(t, Root(c)) == c && KAt(t, Root(c), k) < KAt(t, a, k)
  {
    hide Linked, Apart, Spans, Fits, WalkWord, TopBit, Shl1;
    SubAtSpans(t, a, lo, k);
    WalkHalf(SubAt(t, a), LoAt(t, a, lo, k), KAt(t, a, k), s, w);
    WalkChild(m, t, i, lo, k, a, TopBit(w), c);
  }

  lemma WalkHalf(sub: Trie, lo: nat, k: nat, s: nat, w: nat)
    requires sub.Node? && Spans(sub, lo, k) && WalkWord(w, s, lo, k) && sub.size != s
    ensures k > 0
    ensures WalkWord(Shl1(w), s, if TopBit(w) == 0 then lo else lo + Pow2(k - 1), k - 1)
    ensures s in SizeSet(sub) ==> s in SizeSet(ChildOf(sub, TopBit(w)))
  {
    hide Shl1, TopBit, Align;
    assert k > 0;
    WalkStep(s, lo, k, w);
    WalkSide(sub, lo, k, s, TopBit(w));
  }

  lemma WalkChild(m: LinkMap, t: Trie, i: nat, lo: nat, k: nat, a: nat, bit: nat, c: Trie)
    requires a in Addrs(t) && Linked(m, t, TreeHdr(i), i) && Apart(t) && Spans(t, lo, k)
    requires c == ChildOf(SubAt(t, a), bit) && c.Node?
    ensures Root(c) in Addrs(t) && SubAt(t, Root(c)) == c && KAt(t, a, k) > 0
    ensures KAt(t, Root(c), k) == KAt(t, a, k) - 1
    ensures LoAt(t, Root(c), lo, k) ==
      if bit == 0 then LoAt(t, a, lo, k) else LoAt(t, a, lo, k) + Pow2(KAt(t, a, k) - 1)
  {
    var sub := SubAt(t, a);
    SubAtLinked(m, t, a, TreeHdr(i), i);
    SubAtApart(t, a);
    RootIn(m, c, sub.ring[0], i);
    ChildAt(t, a, Root(c), lo, k);
  }

  lemma WalkSide(sub: Trie, lo: nat, k: nat, s: nat, bit: nat)
    requires sub.Node? && Spans(sub, lo, k) && k > 0 && lo <= s < lo + Pow2(k)
    requires bit == if s < lo + Pow2(k - 1) then 0 else 1
    requires sub.size != s
    ensures s in SizeSet(sub) ==> s in SizeSet(ChildOf(sub, bit))
  {
    if s in SizeSet(sub.l) { SizesInInterval(sub.l, lo, k - 1, s); }
    if s in SizeSet(sub.r) { SizesInInterval(sub.r, lo + Pow2(k - 1), k - 1, s); }
  }

  /** The child words of a node of the tree. */
  lemma NodeFields(m: LinkMap, t: Trie, i: nat, sizes: map<nat, nat>, lo: nat, k: nat, a: nat)
    requires TreeOk(m, t, i, sizes, lo, k) && a in Addrs(t) && a == Root(SubAt(t, a))
    ensures a in m && a in sizes && sizes[a] == SubAt(t, a).size
    ensures m[a].c0 == Root(SubAt(t, a).l) && m[a].c1 == Root(SubAt(t, a).r)
    ensures m[a].c0 == NULL <==> SubAt(t, a).l.Nil?
    ensures m[a].c1 == NULL <==> SubAt(t, a).r.Nil?
    ensures m[a].up == UpAt(t, a, TreeHdr(i)) && m[a].index == i
  {
    hide Apart, Spans, Fits;
    var sub := SubAt(t, a);
    SubAtOk(m, t, a, i, sizes, lo, k);
    RootIn(m, sub, UpAt(t, a, TreeHdr(i)), i);
    if sub.l.Node? { RootIn(m, sub.l, a, i); LinkedAddr(m, sub.l, a, i, Root(sub.l)); }
    if sub.r.Node? { RootIn(m, sub.r, a, i); LinkedAddr(m, sub.r, a, i, Root(sub.r)); }
  }

  lemma WalkNode(m: LinkMap, t: Trie, i: nat, sizes: map<nat, nat>, lo: nat, k: nat, a: nat, s: nat, w: nat)
    requires TreeOk(m, t, i, sizes, lo, k) && Walk(t, lo, k, a, s, w)
    ensures a in Addrs(t) && a == Root(SubAt(t, a)) && a in m && a in sizes && sizes[a] == SubAt(t, a).size
    ensures m[a].c0 == Root(SubAt(t, a).l) && m[a].c1 == Root(SubAt(t, a).r)
    ensures m[a].c0 == NULL <==> SubAt(t, a).l.Nil?
    ensures m[a].c1 == NULL <==> SubAt(t, a).r.Nil?
  {
    hide TreeOk, WalkWord;
    NodeFields(m, t, i, sizes, lo, k, a);
  }

  // ----- insertion -----

  function WithChild(m: LinkMap, a: nat, bit: nat, p: nat): LinkMap
    requires a in m
  {
    m[a := if bit == 0 then m[a].(c0 := p) else m[a].(c1 := p)]
  }

  function WithUp(m: LinkMap, a: nat, p: nat): LinkMap
    requires a in m
  {
    m[a := m[a].(up := p)]
  }

  /** A chunk being inserted: cleared children, bin index set. */
  predicate Cleared(m: LinkMap, x: nat, i: nat) {
    x in m && x >= FIRST_CHUNK && m[x].c0 == NULL && m[x].c1 == NULL && m[x].index == i
  }

  function Leaf(x: nat, s: nat): Trie { Node([x], s, Nil, Nil) }

  function LeafAdded(sub: Trie, bit: nat, x: nat, s: nat): Trie
    requires sub.Node?
  {
    if bit == 0 then sub.(l := Leaf(x, s)) else sub.(r := Leaf(x, s))
  }

  /** The stores that hang `x` in an empty child slot of `a`. */
  function Hung(m: LinkMap, a: nat, bit: nat, x: nat): LinkMap
    requires a in m && x in m
  {
    var m1 := WithChild(m, a, bit, x);
    m1[x := m1[x].(up := a, fd := x, bk := x)]
  }

  lemma NodeHung(m: LinkMap, ring: seq<nat>, up: nat, c0: nat, c1: nat, i: nat, bit: nat, x: nat)
    requires NodeLinked(m, ring, up, c0, c1, i) && Distinct(ring) && x in m && x !in ring
    ensures NodeLinked(Hung(m, ring[0], bit, x), ring, up, if bit == 0 then x else c0, if bit == 0 then c1 else x, i)
  {
    RingFrame(m, Hung(m, ring[0], bit, x), ring);
  }

  lemma LeafLinked(m: LinkMap, sub: Trie, up: nat, i: nat, bit: nat, x: nat, s: nat)
    requires Linked(m, sub, up, i) && Apart(sub) && sub.Node? && ChildOf(sub, bit).Nil?
    requires Cleared(m, x, i) && x !in Addrs(sub)
    ensures sub.ring != [] && sub.ring[0] in m
    ensures Linked(Hung(m, sub.ring[0], bit, x), LeafAdded(sub, bit, x, s), up, i)
  {
    RootIn(m, sub, up, i);
    var a := sub.ring[0];
    var m' := Hung(m, a, bit, x);
    NodeHung(m, sub.ring, up, Root(sub.l), Root(sub.r), i, bit, x);
    LinkedFrame(m, m', if bit == 0 then sub.r else sub.l, a, i);
    LeafAlone(m', x, s, a, i);
  }

  lemma LeafAlone(m: LinkMap, x: nat, s: nat, a: nat, i: nat)
    requires Cleared(m, x, i) && m[x].up == a && m[x].fd == x && m[x].bk == x
    ensures Linked(m, Leaf(x, s), a, i)
  {
  }

  lemma LeafSpan(x: nat, s: nat, lo: nat, k: nat)
    requires lo <= s < lo + Pow2(k)
    ensures Spans(Leaf(x, s), lo, k) && SizeSet(Leaf(x, s)) == {s}
  {
    var t := Leaf(x, s);
    assert t.l == Nil && t.r == Nil && SizeSet(Nil) == {};
    if k > 0 {
      assert Spans(t.l, lo, k - 1) && Spans(t.r, lo + Pow2(k - 1), k - 1);
    }
  }

  lemma LeafSpans(sub: Trie, lo: nat, k: nat, bit: nat, x: nat, s: nat, w: nat)
    requires sub.Node? && Spans(sub, lo, k) && WalkWord(w, s, lo, k) && sub.size != s
    requires bit == TopBit(w) && ChildOf(sub, bit).Nil?
    ensures Spans(LeafAdded(sub, bit, x, s), lo, k)
  {
    hide Shl1, TopBit, Align;
    WalkHalf(sub, lo, k, s, w);
    LeafSpan(x, s, if bit == 0 then lo else lo + Pow2(k - 1), k - 1);
  }

  lemma LeafSets(sub: Trie, bit: nat, x: nat, s: nat)
    requires sub.Node? && ChildOf(sub, bit).Nil? && Apart(sub) && x !in Addrs(sub)
    ensures Apart(LeafAdded(sub, bit, x, s))
    ensures Addrs(LeafAdded(sub, bit, x, s)) == Addrs(sub) + {x}
    ensures SizeSet(LeafAdded(sub, bit, x, s)) == SizeSet(sub) + {s}
    ensures forall sizes :: Fits(sub, sizes) && x in sizes && sizes[x] == s ==> Fits(LeafAdded(sub, bit, x, s), sizes)
  {
    assert Members([x]) == {x};
    assert Addrs(Leaf(x, s)) == {x};
  }

  lemma OutsideHung(m: LinkMap, t: Trie, a: nat, bit: nat, x: nat, s: Trie, up: nat)
    requires a in m && x in m && a in Addrs(t) && a == Root(SubAt(t, a)) && x !in Addrs(t)
    requires Root(s) == a && a in Addrs(SubAt(t, a))
    ensures Outside(m, Hung(m, a, bit, x), t, a, s, up)
  {
  }

  /** Hanging a new leaf where the walk found an empty slot. */
  lemma InsertLeaf(m: LinkMap, t: Trie, i: nat, sizes: map<nat, nat>, lo: nat, k: nat, a: nat, s: nat, w: nat, x: nat,
      t': Trie)
    requires TreeOk(m, t, i, sizes, lo, k) && Walk(t, lo, k, a, s, w) && SubAt(t, a).size != s
    requires ChildOf(SubAt(t, a), TopBit(w)).Nil? && Cleared(m, x, i) && x !in Addrs(t)
    requires x in sizes && sizes[x] == s
    requires t' == Graft(t, a, LeafAdded(SubAt(t, a), TopBit(w), x, s))
    ensures a in m && TreeOk(Hung(m, a, TopBit(w), x), t', i, sizes, lo, k)
    ensures Root(t') == Root(t) && Addrs(t') == Addrs(t) + {x}
    ensures forall b :: b in m && b != x && b !in Addrs(t) ==> Hung(m, a, TopBit(w), x)[b] == m[b]
  {
    hide Linked, Apart, Spans, Fits, WalkWord, TopBit;
    var bit, sub := TopBit(w), SubAt(t, a);
    var sub' := LeafAdded(sub, bit, x, s);
    WalkStops(m, t, i, sizes, lo, k, a, s, w);
    SubAtOk(m, t, a, i, sizes, lo, k);
    RootIn(m, sub, UpAt(t, a, TreeHdr(i)), i);
    LeafLinked(m, sub, UpAt(t, a, TreeHdr(i)), i, bit, x, s);
    LeafSpans(sub, LoAt(t, a, lo, k), KAt(t, a, k), bit, x, s, w);
    LeafSets(sub, bit, x, s);
    OutsideHung(m, t, a, bit, x, sub', TreeHdr(i));
    GraftOk(m, Hung(m, a, bit, x), t, a, sub', i, sizes, lo, k);
  }

  lemma NodeGrows(m: LinkMap, ring: seq<nat>, up: nat, c0: nat, c1: nat, i: nat, x: nat)
    requires NodeLinked(m, ring, up, c0, c1, i) && Distinct(ring)
    requires Cleared(m, x, i) && m[x].up == NULL && x !in ring
    ensures m[ring[0]].fd in m
    ensures NodeLinked(Inserted(m, x, ring[0], m[ring[0]].fd), [ring[0], x] + ring[1..], up, c0, c1, i)
  {
    hide Inserted, Ring;
    RingFirst(m, ring);
    RingInsert(m, ring, x, m[ring[0]].fd);
    InsertedFrame(m, ring, x);
    var r' := [ring[0], x] + ring[1..];
    assert forall k :: 2 <= k < |r'| ==> r'[k] == ring[k - 1];
    assert forall k :: 0 <= k < |r'| ==>
      r'[k] in m && SameTree(m[r'[k]], Inserted(m, x, ring[0], m[ring[0]].fd)[r'[k]]);
  }

  lemma RingGrows(m: LinkMap, sub: Trie, up: nat, i: nat, x: nat, s: Trie)
    requires Linked(m, sub, up, i) && Apart(sub) && sub.Node?
    requires Cleared(m, x, i) && m[x].up == NULL && x !in Addrs(sub)
    requires sub.ring != [] && s == sub.(ring := [sub.ring[0], x] + sub.ring[1..])
    ensures sub.ring[0] in m && m[sub.ring[0]].fd in m
    ensures Linked(Inserted(m, x, sub.ring[0], m[sub.ring[0]].fd), s, up, i)
    ensures forall b :: b in m && b !in Members(sub.ring) && b != x ==>
      Inserted(m, x, sub.ring[0], m[sub.ring[0]].fd)[b] == m[b]
  {
    hide Inserted, Ring;
    var a := sub.ring[0];
    NodeGrows(m, sub.ring, up, Root(sub.l), Root(sub.r), i, x);
    InsertedFrame(m, sub.ring, x);
    var m' := Inserted(m, x, a, m[a].fd);
    LinkedFrame(m, m', sub.l, a, i);
    LinkedFrame(m, m', sub.r, a, i);
  }

  lemma RingFirst(m: LinkMap, ring: seq<nat>)
    requires Ring(m, ring) && Distinct(ring) && ring != []
    ensures m[ring[0]].fd in m && m[ring[0]].fd == if |ring| == 1 then ring[0] else ring[1]
  {
    RingNeighbours(m, ring, 0);
  }

  lemma InsertedFrame(m: LinkMap, ring: seq<nat>, x: nat)
    requires Ring(m, ring) && Distinct(ring) && ring != [] && x in m && x !in ring
    ensures m[ring[0]].fd in m
    ensures var m' := Inserted(m, x, ring[0], m[ring[0]].fd);
      && (forall b :: b in m ==> b in m' && SameTree(m[b], m'[b]))
      && (forall b :: b in m && b !in Members(ring) && b != x ==> m'[b] == m[b])
  {
    RingNeighbours(m, ring, 0);
    var f := m[ring[0]].fd;
    forall b | b in m
      ensures SameTree(m[b], Inserted(m, x, ring[0], f)[b])
      ensures b !in Members(ring) && b != x ==> Inserted(m, x, ring[0], f)[b] == m[b]
    {
      InsertedAt(m, x, ring[0], f, b);
    }
  }

  lemma RingGrowsSets(sub: Trie, x: nat, s: Trie)
    requires Apart(sub) && sub.Node? && x !in Addrs(sub)
    requires sub.ring != [] && s == sub.(ring := [sub.ring[0], x] + sub.ring[1..])
    ensures Apart(s) && Addrs(s) == Addrs(sub) + {x} && SizeSet(s) == SizeSet(sub)
    ensures forall lo, k :: Spans(sub, lo, k) ==> Spans(s, lo, k)
  {
    assert Members(s.ring) == Members(sub.ring) + {x};
  }

  lemma RingFits(sub: Trie, sizes: map<nat, nat>, x: nat, s: Trie)
    requires sub.Node? && Fits(sub, sizes) && x in sizes && sizes[x] == sub.size && sub.ring != []
    requires s == sub.(ring := [sub.ring[0], x] + sub.ring[1..])
    ensures Fits(s, sizes)
  {
    assert forall b :: b in s.ring ==> b in sub.ring || b == x;
  }

  /** Linking a chunk into the ring of the node that already has its size. */
  lemma InsertRing(m: LinkMap, t: Trie, i: nat, sizes: map<nat, nat>, lo: nat, k: nat, a: nat, x: nat, s: Trie,
      t': Trie)
    requires TreeOk(m, t, i, sizes, lo, k) && a in Addrs(t) && a == Root(SubAt(t, a))
    requires Cleared(m, x, i) && m[x].up == NULL && x !in Addrs(t)
    requires x in sizes && sizes[x] == SubAt(t, a).size
    requires s == SubAt(t, a).(ring := [a, x] + SubAt(t, a).ring[1..]) && t' == Graft(t, a, s)
    ensures a in m && m[a].fd in m && TreeOk(Inserted(m, x, a, m[a].fd), t', i, sizes, lo, k)
    ensures Root(t') == Root(t) && Addrs(t') == Addrs(t) + {x}
    ensures forall b :: b in m && b != x && b !in Addrs(t) ==> Inserted(m, x, a, m[a].fd)[b] == m[b]
  {
    hide Linked, Apart, Spans, Fits;
    var sub := SubAt(t, a);
    SubAtOk(m, t, a, i, sizes, lo, k);
    RootIn(m, sub, UpAt(t, a, TreeHdr(i)), i);
    RingFits(sub, sizes, x, s);
    RingGrows(m, sub, UpAt(t, a, TreeHdr(i)), i, x, s);
    RingGrowsSets(sub, x, s);
    var m' := Inserted(m, x, a, m[a].fd);
    assert Outside(m, m', t, a, s, TreeHdr(i));
    GraftOk(m, m', t, a, s, i, sizes, lo, k);
  }

  /** The first chunk of an empty bin. */
  lemma InsertFirst(m: LinkMap, i: nat, sizes: map<nat, nat>, x: nat, s: nat, lo: nat, k: nat)
    requires Cleared(m, x, i) && m[x].up == TreeHdr(i) && m[x].fd == x && m[x].bk == x
    requires lo <= s < lo + Pow2(k) && x in sizes && sizes[x] == s
    ensures TreeOk(m, Leaf(x, s), i, sizes, lo, k) && Addrs(Leaf(x, s)) == {x} && Root(Leaf(x, s)) == x
  {
    LeafAlone(m, x, s, TreeHdr(i), i);
    LeafSpan(x, s, lo, k);
    assert Members([x]) == {x};
  }
}
