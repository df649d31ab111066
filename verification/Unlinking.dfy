/** Removal of a chunk from the linked trie of a tree bin: a chained chunk, the
    head of a chain, a leaf, or an inner node replaced by a leaf below it. */
module Unlinking {
  import opened Sizes
  import opened Tries
  import opened Links
  import opened TreeBins

  // ----- chained chunks -----

  lemma UnlinkedFrame(m: LinkMap, ring: seq<nat>, p: nat)
    requires Ring(m, ring) && Distinct(ring) && p < |ring| && |ring| > 1
    ensures m[ring[p]].fd in m && m[ring[p]].bk in m
    ensures var m' := Unlinked(m, ring[p]);
      && (forall b :: b in m ==> b in m' && SameTree(m[b], m'[b]))
      && (forall b :: b in m && b !in Members(ring) ==> m'[b] == m[b])
  {
    RingNeighbours(m, ring, p);
    forall b | b in m
      ensures SameTree(m[b], Unlinked(m, ring[p])[b])
      ensures b !in Members(ring) ==> Unlinked(m, ring[p])[b] == m[b]
    {
      UnlinkedAt(m, ring[p], b);
    }
  }

  lemma NodeShrinks(m: LinkMap, ring: seq<nat>, up: nat, c0: nat, c1: nat, i: nat, p: nat)
    requires NodeLinked(m, ring, up, c0, c1, i) && Distinct(ring) && 1 <= p < |ring|
    ensures m[ring[p]].fd in m && m[ring[p]].bk in m
    ensures NodeLinked(Unlinked(m, ring[p]), Without(ring, p), up, c0, c1, i)
  {
    hide Unlinked, Ring, Members;
    RingRemove(m, ring, p);
    UnlinkedFrame(m, ring, p);
    var r' := Without(ring, p);
    forall j | 0 <= j < |r'| ensures r'[j] in m && SameTree(m[r'[j]], Unlinked(m, ring[p])[r'[j]]) {
      assert r'[j] == ring[if j < p then j else j + 1];
    }
  }

  lemma ShrunkSets(sub: Trie, p: nat, s: Trie)
    requires sub.Node? && Apart(sub) && 1 <= p < |sub.ring| && s == sub.(ring := Without(sub.ring, p))
    ensures Apart(s) && Addrs(s) == Addrs(sub) - {sub.ring[p]} && SizeSet(s) == SizeSet(sub)
    ensures forall lo, k :: Spans(sub, lo, k) ==> Spans(s, lo, k)
    ensures forall sizes :: Fits(sub, sizes) ==> Fits(s, sizes)
  {
    forall a ensures a in s.ring <==> a in sub.ring && a != sub.ring[p] {
      WithoutMembers(sub.ring, p, a);
    }
    assert Members(s.ring) == Members(sub.ring) - {sub.ring[p]};
    assert sub.ring[p] in Members(sub.ring);
  }

  /** A chunk chained off the one in the tree: only its ring changes. */
  lemma UnlinkMember(m: LinkMap, t: Trie, i: nat, sizes: map<nat, nat>, lo: nat, k: nat, x: nat, p: nat, s: Trie,
      t': Trie)
    requires TreeOk(m, t, i, sizes, lo, k) && x in Addrs(t)
    requires 1 <= p < |SubAt(t, x).ring| && SubAt(t, x).ring[p] == x
    requires s == SubAt(t, x).(ring := Without(SubAt(t, x).ring, p)) && t' == Graft(t, x, s)
    ensures x in m && m[x].fd in m && m[x].bk in m
    ensures TreeOk(Unlinked(m, x), t', i, sizes, lo, k)
    ensures Root(t') == Root(t) && Addrs(t') == Addrs(t) - {x} && t'.Node?
    ensures forall b :: b in m && b !in Addrs(t) ==> b in Unlinked(m, x) && Unlinked(m, x)[b] == m[b]
  {
    hide Linked, Apart, Spans, Fits, Unlinked;
    var sub := SubAt(t, x);
    var up := UpAt(t, x, TreeHdr(i));
    SubAtOk(m, t, x, i, sizes, lo, k);
    MemberLinked(m, sub, up, i, p, s);
    ShrunkSets(sub, p, s);
    GraftOk(m, Unlinked(m, x), t, x, s, i, sizes, lo, k);
  }

  lemma MemberLinked(m: LinkMap, sub: Trie, up: nat, i: nat, p: nat, s: Trie)
    requires Linked(m, sub, up, i) && sub.Node? && Apart(sub) && 1 <= p < |sub.ring|
    requires s == sub.(ring := Without(sub.ring, p))
    ensures sub.ring[p] in m && m[sub.ring[p]].fd in m && m[sub.ring[p]].bk in m
    ensures Linked(Unlinked(m, sub.ring[p]), s, up, i) && Root(s) == Root(sub)
    ensures forall b :: b in m && b !in Members(sub.ring) ==>
      b in Unlinked(m, sub.ring[p]) && Unlinked(m, sub.ring[p])[b] == m[b]
  {
    hide Unlinked, Ring;
    NodeShrinks(m, sub.ring, up, Root(sub.l), Root(sub.r), i, p);
    UnlinkedFrame(m, sub.ring, p);
    LinkedFrame(m, Unlinked(m, sub.ring[p]), sub.l, sub.ring[0], i);
    LinkedFrame(m, Unlinked(m, sub.ring[p]), sub.r, sub.ring[0], i);
  }

  // ----- a replacement takes the place of the chunk in the tree -----

  /** `r` takes over one child of `x`, if there is one. */
  function Adopted(m: LinkMap, r: nat, bit: nat, c: nat): LinkMap
    requires r in m
  {
    if c == NULL || c !in m then m else
      var m1 := WithChild(m, r, bit, c);
      WithUp(m1, c, r)
  }

  /** The stores that give `r` the parent and the children of `x`. */
  function TakenOver(m: LinkMap, x: nat, r: nat): LinkMap
    requires x in m && r in m
  {
    Adopted(Adopted(WithUp(m, r, m[x].up), r, 0, m[x].c0), r, 1, m[x].c1)
  }

  lemma NodeAdopts(m: LinkMap, ring: seq<nat>, up: nat, c0: nat, c1: nat, i: nat, bit: nat, c: nat)
    requires NodeLinked(m, ring, up, c0, c1, i) && Distinct(ring) && c !in ring && c in m
    ensures NodeLinked(Adopted(m, ring[0], bit, c), ring, up,
      if bit == 0 && c != NULL then c else c0, if bit != 0 && c != NULL then c else c1, i)
  {
    RingFrame(m, Adopted(m, ring[0], bit, c), ring);
  }

  lemma NodeMoves(m: LinkMap, ring: seq<nat>, up: nat, up': nat, c0: nat, c1: nat, i: nat)
    requires NodeLinked(m, ring, up, c0, c1, i) && Distinct(ring)
    ensures NodeLinked(WithUp(m, ring[0], up'), ring, up', c0, c1, i)
  {
    RingFrame(m, WithUp(m, ring[0], up'), ring);
  }

  /** Changing the parent word of a subtree's root re-hangs the subtree. */
  lemma Rehang(m: LinkMap, t: Trie, up: nat, up': nat, i: nat)
    requires Linked(m, t, up, i) && Apart(t) && t.Node?
    ensures Root(t) in m && Linked(WithUp(m, Root(t), up'), t, up', i)
  {
    hide Ring;
    RootIn(m, t, up, i);
    var m' := WithUp(m, Root(t), up');
    NodeMoves(m, t.ring, up, up', Root(t.l), Root(t.r), i);
    LinkedFrame(m, m', t.l, t.ring[0], i);
    LinkedFrame(m, m', t.r, t.ring[0], i);
  }

  /** Taking over one child keeps every subtree disjoint from it. */
  lemma AdoptFrame(m: LinkMap, r: nat, bit: nat, c: nat, o: Trie, up: nat, i: nat)
    requires r in m && Linked(m, o, up, i) && r !in Addrs(o) && (c == NULL || c !in Addrs(o))
    ensures Linked(Adopted(m, r, bit, c), o, up, i)
  {
    if c != NULL { LinkedFrame(m, Adopted(m, r, bit, c), o, up, i); }
  }

  lemma AdoptChild(m: LinkMap, r: nat, bit: nat, c: Trie, x: nat, i: nat)
    requires r in m && Linked(m, c, x, i) && Apart(c) && r !in Addrs(c)
    ensures Linked(Adopted(m, r, bit, Root(c)), c, r, i)
  {
    if c.Node? {
      hide Linked, Apart;
      RootIn(m, c, x, i);
      LinkedAddr(m, c, x, i, Root(c));
      LinkedFrame(m, WithChild(m, r, bit, Root(c)), c, x, i);
      Rehang(WithChild(m, r, bit, Root(c)), c, x, r, i);
    }
  }

  lemma RootElsewhere(m: LinkMap, c: Trie, up: nat, i: nat, ring: seq<nat>)
    requires Linked(m, c, up, i) && Members(ring) !! Addrs(c)
      && (forall k :: 0 <= k < |ring| ==> ring[k] >= FIRST_CHUNK)
    ensures Root(c) !in ring && (c.Node? ==> Root(c) in m && Root(c) in Addrs(c) && Root(c) != NULL)
  {
    if c.Node? {
      RootIn(m, c, up, i);
      LinkedAddr(m, c, up, i, Root(c));
      assert Root(c) in ring ==> Root(c) in Members(ring);
    }
  }

  /** The replacement, with the parent and the children of `x`, spells out the
      node that stands in its place. */
  lemma TakeOver(m: LinkMap, x: nat, ring: seq<nat>, up0: nat, l: Trie, r: Trie, i: nat, size: nat)
    requires NodeLinked(m, ring, up0, NULL, NULL, i) && Distinct(ring)
    requires x in m && m[x].c0 == Root(l) && m[x].c1 == Root(r)
    requires Linked(m, l, x, i) && Linked(m, r, x, i) && Apart(l) && Apart(r)
    requires Members(ring) !! Addrs(l) && Members(ring) !! Addrs(r) && Addrs(l) !! Addrs(r)
    ensures ring[0] in m && Linked(TakenOver(m, x, ring[0]), Node(ring, size, l, r), m[x].up, i)
  {
    hide Linked, Ring, Apart, Adopted, WithUp;
    var a := ring[0];
    assert a in Members(ring);
    RootElsewhere(m, l, x, i, ring);
    RootElsewhere(m, r, x, i, ring);
    var m0 := WithUp(m, a, m[x].up);
    NodeMoves(m, ring, up0, m[x].up, NULL, NULL, i);
    UpFrame(m, a, m[x].up, l, x, i);
    UpFrame(m, a, m[x].up, r, x, i);
    var m1 := Adopted(m0, a, 0, Root(l));
    TakeChild(m0, ring, m[x].up, NULL, NULL, i, 0, l, x);
    NilRoot(l);
    NilRoot(r);
    AdoptFrame(m0, a, 0, Root(l), r, x, i);
    TakeChild(m1, ring, m[x].up, Root(l), NULL, i, 1, r, x);
    AdoptFrame(m1, a, 1, Root(r), l, a, i);
    NodeIsLinked(Adopted(m1, a, 1, Root(r)), ring, size, l, r, m[x].up, i);
  }

  lemma NilRoot(t: Trie)
    ensures t.Nil? ==> Root(t) == NULL
  {
  }

  lemma UpFrame(m: LinkMap, a: nat, p: nat, o: Trie, up: nat, i: nat)
    requires a in m && Linked(m, o, up, i) && a !in Addrs(o)
    ensures Linked(WithUp(m, a, p), o, up, i)
  {
    LinkedFrame(m, WithUp(m, a, p), o, up, i);
  }

  lemma NodeIsLinked(m: LinkMap, ring: seq<nat>, size: nat, l: Trie, r: Trie, up: nat, i: nat)
    requires NodeLinked(m, ring, up, Root(l), Root(r), i) && Linked(m, l, ring[0], i) && Linked(m, r, ring[0], i)
    ensures Linked(m, Node(ring, size, l, r), up, i)
  {
  }

  lemma TakeChild(m: LinkMap, ring: seq<nat>, up: nat, c0: nat, c1: nat, i: nat, bit: nat, c: Trie, x: nat)
    requires NodeLinked(m, ring, up, c0, c1, i) && Distinct(ring) && Linked(m, c, x, i) && Apart(c)
    requires Members(ring) !! Addrs(c)
    requires if bit == 0 then c0 == NULL else c1 == NULL
    ensures NodeLinked(Adopted(m, ring[0], bit, Root(c)), ring, up, if bit == 0 then Root(c) else c0,
      if bit == 0 then c1 else Root(c), i)
    ensures Linked(Adopted(m, ring[0], bit, Root(c)), c, ring[0], i)
  {
    hide Linked, Ring, Apart;
    assert ring[0] in Members(ring);
    RootElsewhere(m, c, x, i, ring);
    NilRoot(c);
    AdoptChild(m, ring[0], bit, c, x, i);
    if c.Node? {
      NodeAdopts(m, ring, up, c0, c1, i, bit, Root(c));
    }
  }

  lemma TakenFrame(m: LinkMap, x: nat, r: nat, b: nat)
    requires x in m && r in m && b in m && b != r && b != m[x].c0 && b != m[x].c1
    ensures b in TakenOver(m, x, r) && TakenOver(m, x, r)[b] == m[b]
  {
  }

  /** The parent slot of `x` is redirected to `r`; a root's slot is the bin. */
  function Slotted(m: LinkMap, isRoot: bool, xp: nat, x: nat, r: nat): LinkMap
    requires isRoot || xp in m
  {
    if isRoot then m else m[xp := Relink(m[xp], x, r)]
  }

  /** All the stores that put `r` where `x` was. */
  function Replaced(m: LinkMap, isRoot: bool, xp: nat, x: nat, r: nat): LinkMap
    requires (isRoot || xp in m) && x in m && r in m
  {
    TakenOver(Slotted(m, isRoot, xp, x, r), x, r)
  }

  /** The node that takes the place of `sub` when `x` leaves: `ring` moves up,
      over the remaining subtrees `l` and `r`. */
  ghost predicate Successor(m: LinkMap, m1: LinkMap, sub: Trie, x: nat, s: Trie, up0: nat, up: nat, i: nat) {
    && s.Node? && Apart(s)
    && NodeLinked(m1, s.ring, up0, NULL, NULL, i)
    && x in m1 && m1[x].c0 == Root(s.l) && m1[x].c1 == Root(s.r) && m1[x].up == up
    && Linked(m1, s.l, x, i) && Linked(m1, s.r, x, i)
    && Addrs(s) == Addrs(sub) - {x}
    && (forall b :: b in m && b !in Addrs(sub) ==> b in m1 && m1[b] == m[b])
  }

  lemma SlottedFrame(m1: LinkMap, isRoot: bool, xp: nat, x: nat, r: nat, t: Trie, up: nat, i: nat)
    requires isRoot || xp in m1
    requires Linked(m1, t, up, i) && (isRoot || xp !in Addrs(t))
    ensures Linked(Slotted(m1, isRoot, xp, x, r), t, up, i)
  {
    LinkedFrame(m1, Slotted(m1, isRoot, xp, x, r), t, up, i);
  }

  lemma SlottedNode(m1: LinkMap, isRoot: bool, xp: nat, x: nat, r: nat, ring: seq<nat>, up: nat, c0: nat, c1: nat,
      i: nat)
    requires isRoot || xp in m1
    requires NodeLinked(m1, ring, up, c0, c1, i) && (isRoot || xp !in Members(ring))
    ensures NodeLinked(Slotted(m1, isRoot, xp, x, r), ring, up, c0, c1, i)
  {
    NodeFrame(m1, Slotted(m1, isRoot, xp, x, r), ring, up, c0, c1, i);
  }

  lemma SuccessorLinked(m: LinkMap, m1: LinkMap, sub: Trie, x: nat, s: Trie, up0: nat, up: nat, i: nat, isRoot: bool)
    requires Successor(m, m1, sub, x, s, up0, up, i)
    requires (isRoot || (up in m1 && up !in Addrs(sub))) && x in Addrs(sub)
    ensures Root(s) in m1 && Root(s) in Addrs(sub)
    ensures Linked(Replaced(m1, isRoot, up, x, Root(s)), s, up, i)
  {
    hide Linked, Ring, Distinct, TakenOver;
    assert Root(s) in Members(s.ring);
    var m2 := Slotted(m1, isRoot, up, x, Root(s));
    SlottedFrame(m1, isRoot, up, x, Root(s), s.l, x, i);
    SlottedFrame(m1, isRoot, up, x, Root(s), s.r, x, i);
    SlottedNode(m1, isRoot, up, x, Root(s), s.ring, up0, NULL, NULL, i);
    TakeOver(m2, x, s.ring, up0, s.l, s.r, i, s.size);
  }

  lemma SuccessorOutside(m: LinkMap, m1: LinkMap, sub: Trie, x: nat, s: Trie, up0: nat, up: nat, i: nat, isRoot: bool,
      b: nat)
    requires Successor(m, m1, sub, x, s, up0, up, i)
    requires (isRoot || (up in m1 && up !in Addrs(sub))) && x in Addrs(sub)
    requires Root(s) in m1 && Root(s) in Addrs(sub)
    requires b in m && b !in Addrs(sub) && b != NULL
    ensures var m' := Replaced(m1, isRoot, up, x, Root(s));
      b in m' && m'[b] == if !isRoot && b == up then Relink(m[b], x, Root(s)) else m[b]
  {
    hide TakenOver, NodeLinked, Distinct;
    if s.l.Node? { RootIn(m1, s.l, x, i); }
    if s.r.Node? { RootIn(m1, s.r, x, i); }
    TakenFrame(Slotted(m1, isRoot, up, x, Root(s)), x, Root(s), b);
  }

  /** Putting the successor node in the place of the chunk's node. */
  lemma Succeed(m: LinkMap, m1: LinkMap, t: Trie, i: nat, sizes: map<nat, nat>, lo: nat, k: nat, x: nat, s: Trie,
      up0: nat, t': Trie)
    requires TreeOk(m, t, i, sizes, lo, k) && x in Addrs(t) && t' == Graft(t, x, s)
    requires Successor(m, m1, SubAt(t, x), x, s, up0, UpAt(t, x, TreeHdr(i)), i)
    requires x == Root(SubAt(t, x)) && SizeSet(s) <= SizeSet(SubAt(t, x)) && Fits(s, sizes)
    requires SpansAt(t, x, lo, k, s) && i < NTREEBINS
    ensures x == Root(t) || UpAt(t, x, TreeHdr(i)) in m1
    ensures Root(s) in m1 && x in m1
    ensures TreeOk(Replaced(m1, x == Root(t), UpAt(t, x, TreeHdr(i)), x, Root(s)), t', i, sizes, lo, k)
    ensures Root(t') == (if x == Root(t) then Root(s) else Root(t)) && Addrs(t') == Addrs(t) - {x} && t'.Node?
    ensures forall b :: b in m && b != NULL && b !in Addrs(t) ==>
      var m' := Replaced(m1, x == Root(t), UpAt(t, x, TreeHdr(i)), x, Root(s)); b in m' && m'[b] == m[b]
  {
    hide Linked, Apart, Spans, Fits, NodeLinked, Replaced;
    var sub, up, isRoot := SubAt(t, x), UpAt(t, x, TreeHdr(i)), x == Root(t);
    SubAtOk(m, t, x, i, sizes, lo, k);
    RootOrBelow(m, t, i, x);
    SuccessorLinked(m, m1, sub, x, s, up0, up, i, isRoot);
    var m' := Replaced(m1, isRoot, up, x, Root(s));
    forall b | b in Addrs(t) && b !in Addrs(sub) && b in m
      ensures b in m' && m'[b] == if b == up then Relink(m[b], x, Root(s)) else m[b]
    {
      LinkedAddr(m, t, TreeHdr(i), i, b);
      SuccessorOutside(m, m1, sub, x, s, up0, up, i, isRoot, b);
    }
    GraftOk(m, m', t, x, s, i, sizes, lo, k);
    forall b | b in m && b != NULL && b !in Addrs(t) ensures b in m' && m'[b] == m[b] {
      SuccessorOutside(m, m1, sub, x, s, up0, up, i, isRoot, b);
    }
  }

  /** The chunk in the tree is the bin's root or hangs below a chunk of it. */
  lemma RootOrBelow(m: LinkMap, t: Trie, i: nat, x: nat)
    requires Linked(m, t, TreeHdr(i), i) && Apart(t) && x in Addrs(t) && x == Root(SubAt(t, x)) && i < 32
    ensures x == Root(t) <==> x in t.ring
    ensures x == Root(t) ==> UpAt(t, x, TreeHdr(i)) == TreeHdr(i) && SubAt(t, x) == t
    ensures var up := UpAt(t, x, TreeHdr(i));
      x != Root(t) ==> up in m && up in Addrs(t) && up !in Addrs(SubAt(t, x))
    ensures TreeHdr(i) !in Addrs(t)
  {
    if x !in t.ring { UpApart(m, t, TreeHdr(i), i, x); }
    if TreeHdr(i) in Addrs(t) { LinkedAddr(m, t, TreeHdr(i), i, TreeHdr(i)); }
  }

  lemma {:induction false} UpApart(m: LinkMap, t: Trie, up: nat, i: nat, x: nat)
    requires Linked(m, t, up, i) && Apart(t) && x in Addrs(t) && x !in t.ring
    ensures UpAt(t, x, up) in m && UpAt(t, x, up) in Addrs(t) && UpAt(t, x, up) !in Addrs(SubAt(t, x))
  {
    RootIn(m, t, up, i);
    var c := if x in Addrs(t.l) then t.l else t.r;
    SubAtAddrs(c, x);
    if x !in c.ring {
      UpApart(m, c, t.ring[0], i, x);
    } else {
      assert t.ring[0] in Members(t.ring);
    }
  }

  // ----- the head of a chain is replaced by its `bk` chunk -----

  function Rotated(ring: seq<nat>): seq<nat>
    requires |ring| > 1
  {
    [ring[|ring| - 1]] + Without(ring, 0)[..|ring| - 2]
  }

  lemma RotatedSets(ring: seq<nat>)
    requires |ring| > 1 && Distinct(ring)
    ensures Distinct(Rotated(ring)) && Members(Rotated(ring)) == Members(ring) - {ring[0]}
    ensures |Rotated(ring)| == |ring| - 1 && ring[0] in Members(ring)
  {
    var r := Rotated(ring);
    assert forall j :: 1 <= j < |r| ==> r[j] == ring[j];
    forall a ensures a in Members(r) <==> a in Members(ring) && a != ring[0] {
      if a in ring && a != ring[0] {
        var j :| 0 <= j < |ring| && ring[j] == a;
        assert r[if j == |ring| - 1 then 0 else j] == a;
      }
    }
  }

  lemma HeadNode(m: LinkMap, ring: seq<nat>, up: nat, c0: nat, c1: nat, i: nat)
    requires NodeLinked(m, ring, up, c0, c1, i) && Distinct(ring) && |ring| > 1
    ensures m[ring[0]].fd in m && m[ring[0]].bk in m && m[ring[0]].bk == Rotated(ring)[0]
    ensures NodeLinked(Unlinked(m, ring[0]), Rotated(ring), NULL, NULL, NULL, i)
    ensures SameTree(m[ring[0]], Unlinked(m, ring[0])[ring[0]])
  {
    hide Unlinked, Ring, Next;
    RingRemove(m, ring, 0);
    UnlinkedFrame(m, ring, 0);
    RingNeighbours(m, ring, 0);
    WithoutMembers(ring, 0, ring[0]);
    RingRotate(Unlinked(m, ring[0]), Without(ring, 0));
    var r := Rotated(ring);
    assert forall j :: 0 <= j < |r| ==> r[j] == ring[if j == 0 then |ring| - 1 else j];
    assert forall j :: 0 <= j < |r| ==> r[j] in m && SameTree(m[r[j]], Unlinked(m, ring[0])[r[j]]);
  }

  function HeadGone(sub: Trie): Trie
    requires sub.Node? && |sub.ring| > 1
  {
    sub.(ring := Rotated(sub.ring))
  }

  lemma HeadSuccessor(m: LinkMap, sub: Trie, up: nat, i: nat)
    requires Linked(m, sub, up, i) && Apart(sub) && sub.Node? && |sub.ring| > 1
    ensures var x := sub.ring[0];
      && x in m && m[x].fd in m && m[x].bk in m && m[x].bk == Root(HeadGone(sub))
      && Successor(m, Unlinked(m, x), sub, x, HeadGone(sub), NULL, up, i)
  {
    hide Unlinked, Ring, Rotated;
    var x := sub.ring[0];
    RotatedSets(sub.ring);
    HeadGoneSets(sub);
    HeadNode(m, sub.ring, up, Root(sub.l), Root(sub.r), i);
    UnlinkedFrame(m, sub.ring, 0);
    LinkedFrame(m, Unlinked(m, x), sub.l, x, i);
    LinkedFrame(m, Unlinked(m, x), sub.r, x, i);
  }

  lemma HeadGoneSets(sub: Trie)
    requires Apart(sub) && sub.Node? && |sub.ring| > 1
    ensures Apart(HeadGone(sub)) && Addrs(HeadGone(sub)) == Addrs(sub) - {sub.ring[0]}
    ensures SizeSet(HeadGone(sub)) == SizeSet(sub)
    ensures forall lo, k :: Spans(sub, lo, k) ==> Spans(HeadGone(sub), lo, k)
    ensures forall sizes :: Fits(sub, sizes) ==> Fits(HeadGone(sub), sizes)
  {
    hide Rotated;
    RotatedSets(sub.ring);
    forall a | a in Rotated(sub.ring) ensures a in sub.ring {
      assert a in Members(Rotated(sub.ring));
    }
  }

  // ----- a leaf is replaced by nothing -----

  /** The last chunk of its size, at a leaf. */
  lemma UnlinkLeaf(m: LinkMap, t: Trie, i: nat, sizes: map<nat, nat>, lo: nat, k: nat, x: nat, t': Trie)
    requires TreeOk(m, t, i, sizes, lo, k) && x in Addrs(t) && t' == Graft(t, x, Nil) && i < NTREEBINS
    requires SubAt(t, x).ring == [x] && SubAt(t, x).l.Nil? && SubAt(t, x).r.Nil?
    ensures x == Root(t) || UpAt(t, x, TreeHdr(i)) in m
    ensures TreeOk(Slotted(m, x == Root(t), UpAt(t, x, TreeHdr(i)), x, NULL), t', i, sizes, lo, k)
    ensures Root(t') == (if x == Root(t) then NULL else Root(t)) && Addrs(t') == Addrs(t) - {x}
    ensures t'.Nil? <==> x == Root(t)
    ensures forall b :: b in m && b !in Addrs(t) ==>
      var m' := Slotted(m, x == Root(t), UpAt(t, x, TreeHdr(i)), x, NULL); b in m' && m'[b] == m[b]
  {
    hide Linked, Apart, Fits;
    var sub, up := SubAt(t, x), UpAt(t, x, TreeHdr(i));
    SubAtOk(m, t, x, i, sizes, lo, k);
    RootOrBelow(m, t, i, x);
    assert Addrs(sub) == {x};
    NilTrie(up, m, i, sizes);
    GraftOk(m, Slotted(m, x == Root(t), up, x, NULL), t, x, Nil, i, sizes, lo, k);
  }

  lemma NilTrie(up: nat, m: LinkMap, i: nat, sizes: map<nat, nat>)
    ensures forall m' :: Linked(m', Nil, up, i)
    ensures Apart(Nil) && Fits(Nil, sizes)
  {
  }

  // ----- an inner node is replaced by its rightmost leaf -----

  /** The leaf reached by going right where possible, else left. */
  function LastLeaf(t: Trie): nat {
    if t.Nil? then NULL
    else if t.r.Node? then LastLeaf(t.r)
    else if t.l.Node? then LastLeaf(t.l)
    else Root(t)
  }

  /** The search for the replacement stands at `r`, in child slot `side` of `q`. */
  ghost predicate Descent(m: LinkMap, sub: Trie, up: nat, r: nat, q: nat, side: nat) {
    && r in Addrs(sub) && sub.Node? && r !in sub.ring && Root(SubAt(sub, r)) == r && r != NULL
    && q == UpAt(sub, r, up) && q in m && q in Addrs(sub) && q !in Addrs(SubAt(sub, r))
    && side < 2 && (side == 0 ==> m[q].c0 == r) && (side == 1 ==> m[q].c1 == r && m[q].c0 != r)
  }

  lemma {:induction false} UpOfChild(t: Trie, a: nat, up: nat, b: nat)
    requires a in Addrs(t) && Apart(t)
    requires var s := SubAt(t, a); (s.l.Node? && b in s.l.ring) || (s.r.Node? && b in s.r.ring)
    ensures b in Addrs(t) && b !in t.ring && UpAt(t, b, up) == Root(SubAt(t, a))
  {
    if a !in t.ring {
      var c := if a in Addrs(t.l) then t.l else t.r;
      SubAtAddrs(c, a);
      UpOfChild(c, a, Root(t), b);
    }
  }

  lemma DescentStep(m: LinkMap, sub: Trie, up: nat, i: nat, lo: nat, k: nat, a: nat, side: nat, c: Trie)
    requires Linked(m, sub, up, i) && Apart(sub) && Spans(sub, lo, k) && a in Addrs(sub)
    requires a == Root(SubAt(sub, a)) && side < 2 && c == ChildOf(SubAt(sub, a), side) && c.Node?
    ensures Root(c) in Addrs(sub) && SubAt(sub, Root(c)) == c && Descent(m, sub, up, Root(c), a, side)
  {
    var s := SubAt(sub, a);
    SubAtLinked(m, sub, a, up, i);
    SubAtApart(sub, a);
    RootIn(m, s, UpAt(sub, a, up), i);
    RootIn(m, c, a, i);
    LinkedAddr(m, c, a, i, Root(c));
    UpOfChild(sub, a, up, Root(c));
    ChildAt(sub, a, Root(c), lo, k);
    if s.l.Node? { RootIn(m, s.l, a, i); }
  }

  lemma {:induction false} LeafSizeGone(t: Trie, a: nat, lo: nat, k: nat)
    requires a in Addrs(t) && Spans(t, lo, k) && Apart(t) && SubAt(t, a).l.Nil? && SubAt(t, a).r.Nil?
    ensures SubAt(t, a).size !in SizeSet(Graft(t, a, Nil))
    ensures SubAt(t, a).size in SizeSet(t)
  {
    if a !in t.ring {
      var left := a in Addrs(t.l);
      var c := if left then t.l else t.r;
      SubAtAddrs(c, a);
      LeafSizeGone(c, a, if left then lo else lo + Pow2(k - 1), k - 1);
      if SubAt(t, a).size in SizeSet(if left then t.r else t.l) {
        LeftBelowRight(t, lo, k, SubAt(t, a).size, SubAt(t, a).size);
      }
    }
  }

  function LeafMoved(sub: Trie, r: nat): Trie
    requires r in Addrs(sub) && Graft(sub, r, Nil).Node?
  {
    var rest := Graft(sub, r, Nil);
    Node(SubAt(sub, r).ring, SubAt(sub, r).size, rest.l, rest.r)
  }

  /** Cutting the leaf `r` off below the single chunk `x` of `sub`. */
  lemma LeafCut(m: LinkMap, sub: Trie, up: nat, i: nat, r: nat, q: nat, side: nat)
    requires Linked(m, sub, up, i) && Apart(sub)
    requires Descent(m, sub, up, r, q, side) && SubAt(sub, r).l.Nil? && SubAt(sub, r).r.Nil?
    ensures Linked(WithChild(m, q, side, NULL), Graft(sub, r, Nil), up, i)
  {
    hide Linked, Apart;
    var m1 := WithChild(m, q, side, NULL);
    NilTrie(q, m, i, map[]);
    assert m1[q] == Relink(m[q], r, NULL);
    GraftLinked(m, m1, sub, r, Nil, up, i);
  }

  lemma LeafCutSets(sub: Trie, r: nat, lo: nat, k: nat)
    requires Apart(sub) && Spans(sub, lo, k) && r in Addrs(sub) && sub.Node? && r !in sub.ring
    requires SubAt(sub, r).l.Nil? && SubAt(sub, r).r.Nil?
    ensures Graft(sub, r, Nil).Node? && Graft(sub, r, Nil).ring == sub.ring
    ensures Apart(Graft(sub, r, Nil)) && Spans(Graft(sub, r, Nil), lo, k)
    ensures Addrs(Graft(sub, r, Nil)) == Addrs(sub) - Members(SubAt(sub, r).ring)
    ensures Members(SubAt(sub, r).ring) <= Addrs(sub)
    ensures forall x :: x in SizeSet(Graft(sub, r, Nil)) ==> x in SizeSet(sub)
  {
    SubAtAddrs(sub, r);
    GraftApart(sub, r, Nil);
    GraftSpans(sub, r, Nil, lo, k);
    forall b ensures b in Addrs(Graft(sub, r, Nil)) <==> b in Addrs(sub) && b !in Members(SubAt(sub, r).ring) {
      GraftAddrs(sub, r, Nil, b);
    }
    forall x | x in SizeSet(Graft(sub, r, Nil)) ensures x in SizeSet(sub) { GraftSizes(sub, r, Nil, x); }
  }

  lemma LeafMovedSets(sub: Trie, r: nat, lo: nat, k: nat, x: nat, s: Trie)
    requires Apart(sub) && Spans(sub, lo, k) && r in Addrs(sub) && sub.Node? && r !in sub.ring && sub.ring == [x]
    requires SubAt(sub, r).l.Nil? && SubAt(sub, r).r.Nil?
    requires Graft(sub, r, Nil).Node? && s == LeafMoved(sub, r)
    ensures Apart(s) && Spans(s, lo, k) && Addrs(s) == Addrs(sub) - {x} && SizeSet(s) <= SizeSet(sub)
  {
    hide SubAt, Graft;
    var rest, leaf := Graft(sub, r, Nil), SubAt(sub, r);
    SubAtApart(sub, r);
    LeafCutSets(sub, r, lo, k);
    LeafSizeGone(sub, r, lo, k);
    SizesInInterval(sub, lo, k, leaf.size);
    assert Members([x]) == {x};
    assert Addrs(rest) == {x} + Addrs(rest.l) + Addrs(rest.r);
  }

  lemma LeafSuccessor(m: LinkMap, sub: Trie, up: nat, i: nat, lo: nat, k: nat, x: nat, r: nat, q: nat, side: nat)
    requires Linked(m, sub, up, i) && Apart(sub) && Spans(sub, lo, k) && sub.Node? && sub.ring == [x]
    requires Descent(m, sub, up, r, q, side) && SubAt(sub, r).l.Nil? && SubAt(sub, r).r.Nil?
    ensures Graft(sub, r, Nil).Node? && Root(LeafMoved(sub, r)) == r
    ensures Successor(m, WithChild(m, q, side, NULL), sub, x, LeafMoved(sub, r), q, up, i)
    ensures SizeSet(LeafMoved(sub, r)) <= SizeSet(sub) && Spans(LeafMoved(sub, r), lo, k)
  {
    hide SubAt, Graft, Spans, SizeSet;
    var m1 := WithChild(m, q, side, NULL);
    LeafCut(m, sub, up, i, r, q, side);
    LeafCutSets(sub, r, lo, k);
    LeafMovedSets(sub, r, lo, k, x, LeafMoved(sub, r));
    SubAtLinked(m, sub, r, up, i);
    NodeFrame(m, m1, SubAt(sub, r).ring, q, NULL, NULL, i);
  }

  lemma LeafMovedFits(sub: Trie, r: nat, sizes: map<nat, nat>)
    requires Fits(sub, sizes) && r in Addrs(sub) && Graft(sub, r, Nil).Node?
    ensures Fits(LeafMoved(sub, r), sizes)
  {
    SubAtFits(sub, r, sizes);
    GraftFits(sub, r, Nil, sizes);
  }

  // ----- which case applies -----

  /** What the link words of a binned chunk say about its place. */
  lemma UnlinkCases(m: LinkMap, t: Trie, i: nat, sizes: map<nat, nat>, lo: nat, k: nat, x: nat) returns (pos: nat)
    requires TreeOk(m, t, i, sizes, lo, k) && x in Addrs(t) && i < NTREEBINS
    ensures pos < |SubAt(t, x).ring| && SubAt(t, x).ring[pos] == x
    ensures x in m && x != NULL && m[x].index == i && m[x].fd in m && m[x].bk in m
    ensures m[x].bk == x <==> |SubAt(t, x).ring| == 1
    ensures pos > 0 ==> m[x].up == NULL && |SubAt(t, x).ring| > 1
    ensures pos == 0 ==> x == Root(SubAt(t, x)) && m[x].up == UpAt(t, x, TreeHdr(i)) && m[x].up != NULL
    ensures pos == 0 ==> (m[x].c0 == NULL <==> SubAt(t, x).l.Nil?) && (m[x].c1 == NULL <==> SubAt(t, x).r.Nil?)
    ensures |SubAt(t, x).ring| == 1 ==> SubAt(t, x).ring == [x]
  {
    hide Spans, Fits;
    var sub := SubAt(t, x);
    SubAtOk(m, t, x, i, sizes, lo, k);
    pos :| 0 <= pos < |sub.ring| && sub.ring[pos] == x;
    CaseFields(m, sub, UpAt(t, x, TreeHdr(i)), i, pos);
    if pos == 0 {
      NodeFields(m, t, i, sizes, lo, k, x);
      if UpAt(t, x, TreeHdr(i)) in Addrs(t) { LinkedAddr(m, t, TreeHdr(i), i, UpAt(t, x, TreeHdr(i))); }
      RootOrBelow(m, t, i, x);
    }
  }

  lemma CaseFields(m: LinkMap, sub: Trie, up: nat, i: nat, pos: nat)
    requires Linked(m, sub, up, i) && sub.Node? && Apart(sub) && pos < |sub.ring|
    ensures var x := sub.ring[pos];
      && x in m && x != NULL && m[x].index == i && m[x].fd in m && m[x].bk in m
      && (m[x].bk == x <==> |sub.ring| == 1)
      && (pos > 0 ==> m[x].up == NULL)
  {
    RingNeighbours(m, sub.ring, pos);
  }

  /** The pointers `unlink_large_chunk` follows when it puts `r` in the place
      of `x` are all there and distinct. */
  predicate Ready(m: LinkMap, isRoot: bool, xp: nat, x: nat, r: nat) {
    && (isRoot || (xp in m && xp != x)) && x in m && r in m && r != x && r != NULL
    && (m[x].c0 == NULL || (m[x].c0 in m && m[x].c0 != x))
    && (m[x].c1 == NULL || m[x].c1 in m)
  }

  lemma SuccessorReady(m: LinkMap, m1: LinkMap, sub: Trie, x: nat, s: Trie, up0: nat, up: nat, i: nat, isRoot: bool)
    requires Successor(m, m1, sub, x, s, up0, up, i)
    requires (isRoot || (up in m && up !in Addrs(sub))) && x in Addrs(sub)
    ensures Ready(m1, isRoot, up, x, Root(s)) && m1[x].up == up
  {
    assert Root(s) in Members(s.ring);
    if s.l.Node? { RootIn(m1, s.l, x, i); }
    if s.r.Node? { RootIn(m1, s.r, x, i); }
  }

  /** The plan of a removal that puts `r` in the place of the tree chunk `x`,
      starting from memory `m1`. */
  ghost predicate Plan(m: LinkMap, m1: LinkMap, t: Trie, i: nat, sizes: map<nat, nat>, lo: nat, k: nat, x: nat, r: nat,
      t': Trie)
    requires x in Addrs(t)
  {
    var up := UpAt(t, x, TreeHdr(i));
    && Ready(m1, x == Root(t), up, x, r) && m1[x].up == up && m1[x].index == i
    && TreeOk(Replaced(m1, x == Root(t), up, x, r), t', i, sizes, lo, k)
    && Root(t') == (if x == Root(t) then r else Root(t)) && Addrs(t') == Addrs(t) - {x} && t'.Node?
    && (forall b :: b in m && b != NULL && b !in Addrs(t) ==>
         b in Replaced(m1, x == Root(t), up, x, r) && Replaced(m1, x == Root(t), up, x, r)[b] == m[b])
  }

  lemma SuccessorPlan(m: LinkMap, m1: LinkMap, t: Trie, i: nat, sizes: map<nat, nat>, lo: nat, k: nat, x: nat, s: Trie,
      up0: nat, t': Trie)
    requires TreeOk(m, t, i, sizes, lo, k) && x in Addrs(t) && t' == Graft(t, x, s) && i < NTREEBINS
    requires Successor(m, m1, SubAt(t, x), x, s, up0, UpAt(t, x, TreeHdr(i)), i)
    requires x == Root(SubAt(t, x)) && SizeSet(s) <= SizeSet(SubAt(t, x)) && Fits(s, sizes)
    requires SpansAt(t, x, lo, k, s) && x in m1 && m1[x].index == i
    ensures Plan(m, m1, t, i, sizes, lo, k, x, Root(s), t')
  {
    hide Linked, Apart, Spans, Fits, NodeLinked, Replaced, Successor, Ready;
    RootOrBelow(m, t, i, x);
    SubAtOk(m, t, x, i, sizes, lo, k);
    RootIn(m, SubAt(t, x), UpAt(t, x, TreeHdr(i)), i);
    SuccessorReady(m, m1, SubAt(t, x), x, s, up0, UpAt(t, x, TreeHdr(i)), i, x == Root(t));
    Succeed(m, m1, t, i, sizes, lo, k, x, s, up0, t');
  }

  lemma HeadPlan(m: LinkMap, t: Trie, i: nat, sizes: map<nat, nat>, lo: nat, k: nat, x: nat) returns (t': Trie)
    requires TreeOk(m, t, i, sizes, lo, k) && x in Addrs(t) && i < NTREEBINS
    requires x == Root(SubAt(t, x)) && |SubAt(t, x).ring| > 1
    ensures x in m && m[x].fd in m && m[x].bk in m
    ensures Plan(m, Unlinked(m, x), t, i, sizes, lo, k, x, m[x].bk, t')
  {
    hide Linked, Apart, Spans, Fits, Successor, Unlinked, Plan;
    var sub := SubAt(t, x);
    SubAtOk(m, t, x, i, sizes, lo, k);
    HeadSuccessor(m, sub, UpAt(t, x, TreeHdr(i)), i);
    HeadGoneSets(sub);
    UnlinkedAt(m, x, x);
    LinkedAddr(m, t, TreeHdr(i), i, x);
    t' := Graft(t, x, HeadGone(sub));
    SuccessorPlan(m, Unlinked(m, x), t, i, sizes, lo, k, x, HeadGone(sub), NULL, t');
  }

  lemma LeafPlan(m: LinkMap, t: Trie, i: nat, sizes: map<nat, nat>, lo: nat, k: nat, x: nat, r: nat, q: nat,
      side: nat) returns (t': Trie)
    requires TreeOk(m, t, i, sizes, lo, k) && x in Addrs(t) && i < NTREEBINS && SubAt(t, x).ring == [x]
    requires Descent(m, SubAt(t, x), UpAt(t, x, TreeHdr(i)), r, q, side)
    requires SubAt(SubAt(t, x), r).l.Nil? && SubAt(SubAt(t, x), r).r.Nil?
    ensures Plan(m, WithChild(m, q, side, NULL), t, i, sizes, lo, k, x, r, t')
  {
    hide Linked, Apart, Spans, Fits, Successor, Plan, Graft;
    var sub, up, m1 := SubAt(t, x), UpAt(t, x, TreeHdr(i)), WithChild(m, q, side, NULL);
    SubAtOk(m, t, x, i, sizes, lo, k);
    LinkedAddr(m, t, TreeHdr(i), i, x);
    LeafSuccessor(m, sub, up, i, LoAt(t, x, lo, k), KAt(t, x, k), x, r, q, side);
    LeafMovedFits(sub, r, sizes);
    t' := Graft(t, x, LeafMoved(sub, r));
    SuccessorPlan(m, m1, t, i, sizes, lo, k, x, LeafMoved(sub, r), q, t');
  }

  lemma SubRoot(sub: Trie, x: nat)
    requires sub.Node? && sub.ring == [x]
    ensures x in Members(sub.ring) && x in Addrs(sub) && SubAt(sub, x) == sub && Root(sub) == x
  {
  }

  lemma LeafNode(m: LinkMap, c: Trie, up: nat, i: nat, a: nat)
    requires Linked(m, c, up, i) && c.Node? && Root(c) == a
    ensures a in m && m[a].c0 == Root(c.l) && m[a].c1 == Root(c.r)
    ensures (m[a].c0 == NULL <==> c.l.Nil?) && (m[a].c1 == NULL <==> c.r.Nil?)
  {
    if c.l.Node? { RootIn(m, c.l, a, i); LinkedAddr(m, c.l, a, i, Root(c.l)); }
    if c.r.Node? { RootIn(m, c.r, a, i); LinkedAddr(m, c.r, a, i, Root(c.r)); }
  }
}
