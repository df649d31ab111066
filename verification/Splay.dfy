/** The stores of a top-down splay, one step at a time. */
module Splays {
  import opened Ranges
  import opened RangeTree

  // ----- stores of one splay step -----

  /** Right rotation: the left child becomes the root, the old root its right child. */
  function RotatedRight(t: Tree): Tree
    requires t.Node? && t.l.Node?
  {
    Node(t.l.l, t.l.p, t.l.r, Node(t.l.rt, t.p, t.r, t.rt))
  }

  function RotatedLeft(t: Tree): Tree
    requires t.Node? && t.rt.Node?
  {
    Node(Node(t.l, t.p, t.r, t.rt.l), t.rt.p, t.rt.r, t.rt.rt)
  }

  lemma RotateRight(m: Cells, t: Tree)
    requires Spells(m, t) && Apart(t) && t.Node? && t.l.Node?
    ensures t.p in m && t.l.p in m
    ensures Spells(WithRc(WithLc(m, t.p, m[t.l.p].rc), t.l.p, t.p), RotatedRight(t))
    ensures Apart(RotatedRight(t)) && Nodes(RotatedRight(t)) == Nodes(t)
    ensures Contents(RotatedRight(t)) == Contents(t)
  {
    hide Spells, Apart, Nodes, Contents;
    var y := t.l;
    var z := Node(y.rt, t.p, t.r, t.rt);
    NodeOf(t.l, t.p, t.r, t.rt);
    NodeOf(y.l, y.p, y.r, y.rt);
    NodeOf(y.rt, t.p, t.r, t.rt);
    NodeOf(y.l, y.p, y.r, z);
    SpellsNode(m, t.l, t.p, t.r, t.rt);
    SpellsNode(m, y.l, y.p, y.r, y.rt);
    assert Contents(RotatedRight(t)) == Contents(t);
    var m' := WithRc(WithLc(m, t.p, m[y.p].rc), y.p, t.p);
    SpellsFrame(m, m', t.rt);
    SpellsFrame(m, m', y.l);
    SpellsFrame(m, m', y.rt);
    SpellsNode(m', y.rt, t.p, t.r, t.rt);
    SpellsNode(m', y.l, y.p, y.r, z);
  }

  lemma RotateLeft(m: Cells, t: Tree)
    requires Spells(m, t) && Apart(t) && t.Node? && t.rt.Node?
    ensures t.p in m && t.rt.p in m
    ensures Spells(WithLc(WithRc(m, t.p, m[t.rt.p].lc), t.rt.p, t.p), RotatedLeft(t))
    ensures Apart(RotatedLeft(t)) && Nodes(RotatedLeft(t)) == Nodes(t)
    ensures Contents(RotatedLeft(t)) == Contents(t)
  {
    hide Spells, Apart, Nodes, Contents;
    var y := t.rt;
    var z := Node(t.l, t.p, t.r, y.l);
    NodeOf(t.l, t.p, t.r, t.rt);
    NodeOf(y.l, y.p, y.r, y.rt);
    NodeOf(t.l, t.p, t.r, y.l);
    NodeOf(z, y.p, y.r, y.rt);
    SpellsNode(m, t.l, t.p, t.r, t.rt);
    SpellsNode(m, y.l, y.p, y.r, y.rt);
    assert Contents(RotatedLeft(t)) == Contents(t);
    var m' := WithLc(WithRc(m, t.p, m[y.p].lc), y.p, t.p);
    SpellsFrame(m, m', t.l);
    SpellsFrame(m, m', y.l);
    SpellsFrame(m, m', y.rt);
    SpellsNode(m', t.l, t.p, t.r, y.l);
    SpellsNode(m', z, y.p, y.r, y.rt);
  }

  /** The state of a splay between two steps: the tree still searched, and the
      left and right trees taken off it. */
  ghost predicate Splaying(m: Cells, t: nat, l: nat, r: nat, nlc: nat, nrc: nat, cur: Tree, a: Tree, b: Tree) {
    && cur.Node? && t == cur.p && Spells(m, cur) && Apart(cur)
    && l == Last(a) && SpellsLeft(m, a) && Apart(a) && (a.Node? ==> nrc == Root(a))
    && r == First(b) && SpellsRight(m, b) && Apart(b) && (b.Node? ==> nlc == Root(b))
    && Nodes(a) !! Nodes(cur) && Nodes(b) !! Nodes(cur) && Nodes(a) !! Nodes(b)
  }

  lemma NothingOff(m: Cells, cur: Tree)
    requires cur.Node? && Spells(m, cur) && Apart(cur)
    ensures Splaying(m, cur.p, DUMMY, DUMMY, NULL, NULL, cur, Leaf, Leaf)
  {
  }

  /** The tree being searched is rotated right, and the search stays at its root. */
  lemma ZigRight(m: Cells, t: nat, l: nat, r: nat, nlc: nat, nrc: nat, cur: Tree, a: Tree, b: Tree)
    requires Splaying(m, t, l, r, nlc, nrc, cur, a, b) && cur.l.Node?
    ensures t in m && m[t] == Cell(cur.l.p, Root(cur.rt), cur.r) && cur.l.p in m && m[cur.l.p].r == cur.l.r
      && cur.l.p != NULL
    ensures t in Nodes(cur) && cur.l.p in Nodes(cur)
    ensures Splaying(WithRc(WithLc(m, t, m[cur.l.p].rc), cur.l.p, t), cur.l.p, l, r, nlc, nrc, RotatedRight(cur), a, b)
    ensures Nodes(RotatedRight(cur)) == Nodes(cur) && Contents(RotatedRight(cur)) == Contents(cur)
  {
    hide Spells, Apart, Nodes, Contents, SpellsLeft, SpellsRight, First, Last;
    RotateRight(m, cur);
    NodeOf(cur.l, cur.p, cur.r, cur.rt);
    NodeOf(cur.l.l, cur.l.p, cur.l.r, cur.l.rt);
    SpellsNode(m, cur.l, cur.p, cur.r, cur.rt);
    SpellsNode(m, cur.l.l, cur.l.p, cur.l.r, cur.l.rt);
    var m' := WithRc(WithLc(m, t, m[cur.l.p].rc), cur.l.p, t);
    SpellsLeftFrame(m, m', a);
    SpellsRightFrame(m, m', b);
  }

  lemma ZigLeft(m: Cells, t: nat, l: nat, r: nat, nlc: nat, nrc: nat, cur: Tree, a: Tree, b: Tree)
    requires Splaying(m, t, l, r, nlc, nrc, cur, a, b) && cur.rt.Node?
    ensures t in m && m[t] == Cell(Root(cur.l), cur.rt.p, cur.r) && cur.rt.p in m && m[cur.rt.p].r == cur.rt.r
      && cur.rt.p != NULL
    ensures t in Nodes(cur) && cur.rt.p in Nodes(cur)
    ensures Splaying(WithLc(WithRc(m, t, m[cur.rt.p].lc), cur.rt.p, t), cur.rt.p, l, r, nlc, nrc, RotatedLeft(cur), a,
      b)
    ensures Nodes(RotatedLeft(cur)) == Nodes(cur) && Contents(RotatedLeft(cur)) == Contents(cur)
  {
    hide Spells, Apart, Nodes, Contents, SpellsLeft, SpellsRight, First, Last;
    RotateLeft(m, cur);
    NodeOf(cur.l, cur.p, cur.r, cur.rt);
    NodeOf(cur.rt.l, cur.rt.p, cur.rt.r, cur.rt.rt);
    SpellsNode(m, cur.l, cur.p, cur.r, cur.rt);
    SpellsNode(m, cur.rt.l, cur.rt.p, cur.rt.r, cur.rt.rt);
    var m' := WithLc(WithRc(m, t, m[cur.rt.p].lc), cur.rt.p, t);
    SpellsLeftFrame(m, m', a);
    SpellsRightFrame(m, m', b);
  }

  /** Where a splay stands once it has rotated, if it did, and where it goes on. */
  lemma AtCurrent(m: Cells, t: nat, l: nat, r: nat, nlc: nat, nrc: nat, cur: Tree, a: Tree, b: Tree)
    requires Splaying(m, t, l, r, nlc, nrc, cur, a, b)
    ensures t in m && m[t] == Cell(Root(cur.l), Root(cur.rt), cur.r)
    ensures cur.Node? && t == cur.p && t in Nodes(cur)
    ensures cur.l.Node? ==> cur.l.p != NULL && cur.l.p in m && m[cur.l.p].r == cur.l.r
    ensures cur.rt.Node? ==> cur.rt.p != NULL && cur.rt.p in m && m[cur.rt.p].r == cur.rt.r
    ensures Nodes(cur) == Nodes(cur.l) + {cur.p} + Nodes(cur.rt)
    ensures Contents(cur) == Contents(cur.l) + [cur.r] + Contents(cur.rt)
    ensures l in Nodes(a) || (a.Leaf? && l == DUMMY)
    ensures r in Nodes(b) || (b.Leaf? && r == DUMMY)
    ensures if a.Node? then l != DUMMY else l == DUMMY
    ensures if b.Node? then r != DUMMY else r == DUMMY
  {
    hide Spells, Apart, Nodes, Contents, SpellsLeft, SpellsRight, First, Last;
    NodeOf(cur.l, cur.p, cur.r, cur.rt);
    SpellsNode(m, cur.l, cur.p, cur.r, cur.rt);
    NullIsLeaf(cur.l);
    NullIsLeaf(cur.rt);
    if cur.l.Node? { SpellsNode(m, cur.l.l, cur.l.p, cur.l.r, cur.l.rt); }
    if cur.rt.Node? { SpellsNode(m, cur.rt.l, cur.rt.p, cur.rt.r, cur.rt.rt); }
    FillLeaf(a);
    LastIn(a);
    FirstIn(b);
    ApartAboveDummy(a);
    ApartAboveDummy(b);
  }

  /** The root and its right subtree go to the right tree; the search goes on at the
      left child. */
  lemma LinkRight(m: Cells, t: nat, l: nat, r: nat, nlc: nat, nrc: nat, cur: Tree, a: Tree, b: Tree)
    requires Splaying(m, t, l, r, nlc, nrc, cur, a, b) && cur.l.Node?
    ensures b.Node? ==> r in m && r != DUMMY
    ensures t in m && m[t].lc == cur.l.p
    ensures var x := Node(Leaf, cur.p, cur.r, cur.rt);
      && Splaying(
        if b.Leaf? then m else WithLc(m, r, t), cur.l.p, l, t, if b.Leaf? then t else nlc, nrc,
        cur.l, a, FillLeft(b, x))
      && Nodes(FillLeft(b, x)) == Nodes(b) + {cur.p} + Nodes(cur.rt)
      && Contents(cur) + Contents(b) == Contents(cur.l) + Contents(FillLeft(b, x))
  {
    hide Spells, Apart, Nodes, Contents, SpellsLeft, SpellsRight, First, Last, FillLeft;
    var x := Node(Leaf, cur.p, cur.r, cur.rt);
    NoNodes();
    NodeOf(Leaf, cur.p, cur.r, cur.rt);
    NodeOf(cur.l, cur.p, cur.r, cur.rt);
    SpellsNode(m, cur.l, cur.p, cur.r, cur.rt);
    assert SpellsRight(m, x) && First(x) == cur.p by { OpenRight(m, x); }
    FillLeftSets(b, x);
    assert Contents(cur.l) + (Contents(x) + Contents(b)) == Contents(cur) + Contents(b);
    if b.Node? {
      FirstIn(b);
      ApartAboveDummy(b);
      ExtendRight(m, b, x);
      var m' := WithLc(m, r, t);
      SpellsFrame(m, m', cur.l);
      SpellsLeftFrame(m, m', a);
    } else {
      assert FillLeft(b, x) == x by { FillLeaf(x); }
    }
  }

  lemma LinkLeft(m: Cells, t: nat, l: nat, r: nat, nlc: nat, nrc: nat, cur: Tree, a: Tree, b: Tree)
    requires Splaying(m, t, l, r, nlc, nrc, cur, a, b) && cur.rt.Node?
    ensures a.Node? ==> l in m && l != DUMMY
    ensures t in m && m[t].rc == cur.rt.p
    ensures var x := Node(cur.l, cur.p, cur.r, Leaf);
      && Splaying(
        if a.Leaf? then m else WithRc(m, l, t), cur.rt.p, t, r, nlc, if a.Leaf? then t else nrc,
        cur.rt, FillRight(a, x), b)
      && Nodes(FillRight(a, x)) == Nodes(a) + {cur.p} + Nodes(cur.l)
      && Contents(a) + Contents(cur) == Contents(FillRight(a, x)) + Contents(cur.rt)
  {
    hide Spells, Apart, Nodes, Contents, SpellsLeft, SpellsRight, First, Last, FillRight;
    var x := Node(cur.l, cur.p, cur.r, Leaf);
    NoNodes();
    NodeOf(cur.l, cur.p, cur.r, Leaf);
    NodeOf(cur.l, cur.p, cur.r, cur.rt);
    SpellsNode(m, cur.l, cur.p, cur.r, cur.rt);
    assert SpellsLeft(m, x) && Last(x) == cur.p by { OpenLeft(m, x); }
    FillRightSets(a, x);
    assert (Contents(a) + Contents(x)) + Contents(cur.rt) == Contents(a) + Contents(cur);
    if a.Node? {
      LastIn(a);
      ApartAboveDummy(a);
      ExtendLeft(m, a, x);
      var m' := WithRc(m, l, t);
      SpellsFrame(m, m', cur.rt);
      SpellsRightFrame(m, m', b);
    } else {
      assert FillRight(a, x) == x by { FillLeaf(x); }
    }
  }

  lemma FillLeaf(x: Tree)
    ensures FillLeft(Leaf, x) == x && FillRight(Leaf, x) == x && Last(Leaf) == DUMMY && First(Leaf) == DUMMY
  {
  }

  lemma OpenRight(m: Cells, x: Tree)
    requires x.Node? && x.l.Leaf?
    ensures First(x) == x.p
    ensures SpellsRight(m, x) <==> x.p in m && m[x.p].rc == Root(x.rt) && m[x.p].r == x.r && Spells(m, x.rt)
  {
  }

  lemma OpenLeft(m: Cells, x: Tree)
    requires x.Node? && x.rt.Leaf?
    ensures Last(x) == x.p
    ensures SpellsLeft(m, x) <==> x.p in m && m[x.p].lc == Root(x.l) && m[x.p].r == x.r && Spells(m, x.l)
  {
  }

  lemma {:induction false} ApartAboveDummy(t: Tree)
    requires Apart(t)
    ensures forall a :: a in Nodes(t) ==> a > DUMMY
  {
    if t.Node? {
      ApartAboveDummy(t.l);
      ApartAboveDummy(t.rt);
    }
  }

  /** The tree a finished splay puts together. */
  function Assembled(cur: Tree, a: Tree, b: Tree): Tree
    requires cur.Node?
  {
    Node(FillRight(a, cur.l), cur.p, cur.r, FillLeft(b, cur.rt))
  }

  lemma AssembledRoot(cur: Tree, a: Tree, b: Tree)
    requires cur.Node?
    ensures Root(Assembled(cur, a, b)) == cur.p
  {
  }

  lemma AssembledSets(cur: Tree, a: Tree, b: Tree)
    requires cur.Node? && Apart(cur) && Apart(a) && Apart(b)
    requires Nodes(a) !! Nodes(cur) && Nodes(b) !! Nodes(cur) && Nodes(a) !! Nodes(b)
    ensures Apart(Assembled(cur, a, b)) && Nodes(Assembled(cur, a, b)) == Nodes(cur) + Nodes(a) + Nodes(b)
    ensures Contents(Assembled(cur, a, b)) == Contents(a) + Contents(cur) + Contents(b)
  {
    hide Apart, Nodes, Contents, FillLeft, FillRight;
    NodeOf(cur.l, cur.p, cur.r, cur.rt);
    FillRightSets(a, cur.l);
    FillLeftSets(b, cur.rt);
    NodeOf(FillRight(a, cur.l), cur.p, cur.r, FillLeft(b, cur.rt));
    assert (Contents(a) + Contents(cur.l)) + [cur.r] + (Contents(cur.rt) + Contents(b))
      == Contents(a) + Contents(cur) + Contents(b);
  }

  ghost predicate LeftClosed(m: Cells, t: nat, r: nat, nlc: nat, cur: Tree, b: Tree, x: Tree) {
    && cur.Node? && t == cur.p && Spells(m, cur) && Apart(cur)
    && r == First(b) && SpellsRight(m, b) && Apart(b) && (b.Node? ==> nlc == Root(b))
    && Spells(m, x) && Nodes(x) !! Nodes(b) && Nodes(b) !! Nodes(cur) && t !in Nodes(x)
  }

  ghost predicate BothClosed(m: Cells, t: nat, v: Range, x: Tree, y: Tree) {
    t in m && m[t].r == v && Spells(m, x) && Spells(m, y) && t !in Nodes(x) && t !in Nodes(y)
  }

  /** The open end of the left tree takes the left subtree of the last node. */
  lemma CloseLeftTree(m: Cells, t: nat, l: nat, r: nat, nlc: nat, nrc: nat, cur: Tree, a: Tree, b: Tree)
    requires Splaying(m, t, l, r, nlc, nrc, cur, a, b)
    ensures t in m && m[t].lc == Root(cur.l) && (a.Node? ==> l in m && l > DUMMY && l in Nodes(a))
    ensures var m1 := if a.Leaf? then m else WithRc(m, l, m[t].lc);
      && Root(FillRight(a, cur.l)) == (if a.Leaf? then m[t].lc else nrc)
      && LeftClosed(m1, t, r, nlc, cur, b, FillRight(a, cur.l))
  {
    hide Spells, Apart, Nodes, Contents, SpellsLeft, SpellsRight, First, Last, FillRight;
    NodeOf(cur.l, cur.p, cur.r, cur.rt);
    SpellsNode(m, cur.l, cur.p, cur.r, cur.rt);
    FillLeaf(cur.l);
    FillRightSets(a, cur.l);
    if a.Node? {
      LastIn(a);
      ApartAboveDummy(a);
      CloseLeft(m, a, cur.l);
      var m1 := WithRc(m, l, m[t].lc);
      SpellsFrame(m, m1, cur);
      SpellsRightFrame(m, m1, b);
    }
  }

  /** The open end of the right tree takes the right subtree, once the left tree is
      closed. */
  lemma CloseRightTree(m: Cells, t: nat, r: nat, nlc: nat, cur: Tree, b: Tree, x: Tree)
    requires LeftClosed(m, t, r, nlc, cur, b, x)
    ensures t in m && m[t].rc == Root(cur.rt) && (b.Node? ==> r in m && r > DUMMY && r in Nodes(b))
    ensures var m2 := if b.Leaf? then m else WithLc(m, r, m[t].rc);
      && Root(FillLeft(b, cur.rt)) == (if b.Leaf? then m[t].rc else nlc)
      && BothClosed(m2, t, cur.r, x, FillLeft(b, cur.rt))
  {
    hide Spells, Apart, Nodes, Contents, SpellsRight, First, FillLeft;
    NodeOf(cur.l, cur.p, cur.r, cur.rt);
    SpellsNode(m, cur.l, cur.p, cur.r, cur.rt);
    FillLeaf(cur.rt);
    FillLeftSets(b, cur.rt);
    if b.Node? {
      FirstIn(b);
      ApartAboveDummy(b);
      CloseRight(m, b, cur.rt);
      SpellsFrame(m, WithLc(m, r, m[t].rc), x);
    }
  }

  /** The two closed trees become the children of the last node. */
  lemma NewRoot(m: Cells, t: nat, v: Range, x: Tree, y: Tree)
    requires BothClosed(m, t, v, x, y)
    ensures t in m
    ensures Spells(WithRc(WithLc(m, t, Root(x)), t, Root(y)), Node(x, t, v, y))
  {
    hide Spells, Nodes;
    var m' := WithRc(WithLc(m, t, Root(x)), t, Root(y));
    SpellsFrame(m, m', x);
    SpellsFrame(m, m', y);
    SpellsNode(m', x, t, v, y);
  }

  // ----- what the steps leave alone -----

  lemma RotationsKeepSearch(t: Tree, key: nat)
    requires t.Node?
    ensures t.l.Node? && key < t.r.base && key < t.l.r.base ==> SearchEnd(RotatedRight(t), key) == SearchEnd(t, key)
    ensures t.rt.Node? && key > t.r.base && key > t.rt.r.base ==> SearchEnd(RotatedLeft(t), key) == SearchEnd(t, key)
  {
  }

  ghost predicate Under(rs: seq<Range>, key: nat) { forall i :: 0 <= i < |rs| ==> rs[i].base < key }

  ghost predicate Over(rs: seq<Range>, key: nat) { forall i :: 0 <= i < |rs| ==> rs[i].base > key }

  lemma Beside(a: seq<Range>, l: seq<Range>, r: Range, rt: seq<Range>, b: seq<Range>, key: nat)
    requires Sorted(a + (l + [r] + rt) + b)
    ensures key >= r.base ==> Under(l, key)
    ensures key <= r.base ==> Over(rt, key)
  {
    var c := a + (l + [r] + rt) + b;
    assert c[|a| + |l|] == r;
    assert forall i :: 0 <= i < |l| ==> l[i] == c[|a| + i];
    assert forall i :: 0 <= i < |rt| ==> rt[i] == c[|a| + |l| + 1 + i];
  }

  /** What stays true of the trees while `key` is splayed in tree `g`. */
  ghost predicate Split(g: Tree, key: nat, cur: Tree, a: Tree, b: Tree) {
    && cur.Node? && g.Node?
    && Contents(a) + Contents(cur) + Contents(b) == Contents(g)
    && Nodes(a) + Nodes(cur) + Nodes(b) == Nodes(g)
    && SearchEnd(cur, key) == SearchEnd(g, key)
    && (Sorted(Contents(g)) ==> Under(Contents(a), key) && Over(Contents(b), key))
  }

  lemma SplitStart(g: Tree, key: nat)
    requires g.Node?
    ensures Split(g, key, g, Leaf, Leaf)
  {
    hide SearchEnd;
    assert [] + Contents(g) + [] == Contents(g);
  }

  lemma SplitNodes(g: Tree, key: nat, cur: Tree, a: Tree, b: Tree)
    requires Split(g, key, cur, a, b)
    ensures Nodes(cur) + Nodes(a) + Nodes(b) == Nodes(g)
  {
    hide Nodes, Contents, SearchEnd;
  }

  lemma SplitRotated(g: Tree, key: nat, cur: Tree, cur': Tree, a: Tree, b: Tree)
    requires Split(g, key, cur, a, b) && cur'.Node?
    requires Nodes(cur') == Nodes(cur) && Contents(cur') == Contents(cur) && SearchEnd(cur', key) == SearchEnd(cur, key)
    ensures Split(g, key, cur', a, b)
  {
    hide Nodes, Contents, SearchEnd;
  }

  lemma SplitRight(g: Tree, key: nat, cur: Tree, a: Tree, b: Tree, b': Tree)
    requires Split(g, key, cur, a, b) && key < cur.r.base && cur.l.Node?
    requires b' == FillLeft(b, Node(Leaf, cur.p, cur.r, cur.rt))
    ensures Split(g, key, cur.l, a, b')
  {
    hide Nodes, Contents, FillLeft;
    var x := Node(Leaf, cur.p, cur.r, cur.rt);
    NoNodes();
    NodeOf(cur.l, cur.p, cur.r, cur.rt);
    NodeOf(Leaf, cur.p, cur.r, cur.rt);
    FillLeftSets(b, x);
    assert Contents(a) + Contents(cur.l) + (Contents(x) + Contents(b)) == Contents(a) + Contents(cur) + Contents(b);
    if Sorted(Contents(g)) {
      Beside(Contents(a), Contents(cur.l), cur.r, Contents(cur.rt), Contents(b), key);
    }
  }

  lemma SplitLeft(g: Tree, key: nat, cur: Tree, a: Tree, b: Tree, a': Tree)
    requires Split(g, key, cur, a, b) && key > cur.r.base && cur.rt.Node?
    requires a' == FillRight(a, Node(cur.l, cur.p, cur.r, Leaf))
    ensures Split(g, key, cur.rt, a', b)
  {
    hide Nodes, Contents, FillRight;
    var x := Node(cur.l, cur.p, cur.r, Leaf);
    NoNodes();
    NodeOf(cur.l, cur.p, cur.r, cur.rt);
    NodeOf(cur.l, cur.p, cur.r, Leaf);
    FillRightSets(a, x);
    assert (Contents(a) + Contents(x)) + Contents(cur.rt) + Contents(b) == Contents(a) + Contents(cur) + Contents(b);
    if Sorted(Contents(g)) {
      Beside(Contents(a), Contents(cur.l), cur.r, Contents(cur.rt), Contents(b), key);
    }
  }

  /** The splayed tree: same ranges and nodes, the last node searched at the
      root, smaller bases on its left and larger ones on its right. */
  ghost predicate SplayedTo(g: Tree, key: nat, h: Tree) {
    && h.Node? && g.Node? && Apart(h)
    && Contents(h) == Contents(g) && Nodes(h) == Nodes(g)
    && h.r == SearchEnd(g, key)
    && (Sorted(Contents(g)) ==> Under(Contents(h.l), key) && Over(Contents(h.rt), key))
  }

  lemma SplayedFacts(g: Tree, key: nat, h: Tree)
    requires SplayedTo(g, key, h)
    ensures h.Node? && g.Node? && Apart(h) && Contents(h) == Contents(g) && Nodes(h) == Nodes(g)
  {
  }

  /** The splayed root keeps its place in the list. */
  lemma RootPlace(g: Tree, key: nat, h: Tree)
    requires SplayedTo(g, key, h) && Sorted(Contents(g))
    ensures SearchIndex(g, key) == |Contents(h.l)| < |Contents(g)| && Contents(g)[|Contents(h.l)|] == h.r
    ensures Under(Contents(g)[..|Contents(h.l)|], key) && Over(Contents(g)[|Contents(h.l)| + 1..], key)
  {
    hide Nodes, Apart, Contents, Under, Over;
    NodeOf(h.l, h.p, h.r, h.rt);
    SearchIndexOf(g, key);
    var k := |Contents(h.l)|;
    assert Contents(g)[k] == h.r;
    assert Contents(g)[..k] == Contents(h.l) && Contents(g)[k + 1..] == Contents(h.rt);
  }

  lemma SplayKeys(m: Cells, m': Cells, g: Tree)
    requires SameOutside(m, m', Nodes(g))
    ensures m'.Keys == m.Keys
  {
  }

  lemma SplayedSides(g: Tree, key: nat, h: Tree)
    requires SplayedTo(g, key, h) && Sorted(Contents(g))
    ensures Under(Contents(h.l), key) && Over(Contents(h.rt), key)
  {
  }

  lemma SplitEnds(g: Tree, key: nat, m: Cells, t: nat, l: nat, r: nat, nlc: nat, nrc: nat, cur: Tree, a: Tree, b: Tree)
    requires Split(g, key, cur, a, b) && Splaying(m, t, l, r, nlc, nrc, cur, a, b)
    requires if key < cur.r.base then cur.l.Leaf? else if key > cur.r.base then cur.rt.Leaf? else true
    ensures SplayedTo(g, key, Assembled(cur, a, b))
  {
    hide Nodes, Contents, FillLeft, FillRight, Apart, Spells, SpellsLeft, SpellsRight, First, Last;
    NoNodes();
    NodeOf(cur.l, cur.p, cur.r, cur.rt);
    AssembledSets(cur, a, b);
    FillRightSets(a, cur.l);
    FillLeftSets(b, cur.rt);
    if Sorted(Contents(g)) {
      Beside(Contents(a), Contents(cur.l), cur.r, Contents(cur.rt), Contents(b), key);
    }
  }

  // ----- the splayed tree as a function -----

  /** The tree a splay makes, from the tree still searched and the trees taken off. */
  function SplayedFrom(cur: Tree, a: Tree, b: Tree, key: nat): Tree
    requires cur.Node?
    decreases cur
  {
    if key < cur.r.base then
      if cur.l.Leaf? then Assembled(cur, a, b)
      else if key < cur.l.r.base then
        var c := RotatedRight(cur);
        if c.l.Leaf? then Assembled(c, a, b) else SplayedFrom(cur.l.l, a, FillLeft(b, Node(Leaf, c.p, c.r, c.rt)), key)
      else SplayedFrom(cur.l, a, FillLeft(b, Node(Leaf, cur.p, cur.r, cur.rt)), key)
    else if key > cur.r.base then
      if cur.rt.Leaf? then Assembled(cur, a, b)
      else if key > cur.rt.r.base then
        var c := RotatedLeft(cur);
        if c.rt.Leaf? then Assembled(c, a, b)
        else SplayedFrom(cur.rt.rt, FillRight(a, Node(c.l, c.p, c.r, Leaf)), b, key)
      else SplayedFrom(cur.rt, FillRight(a, Node(cur.l, cur.p, cur.r, Leaf)), b, key)
    else Assembled(cur, a, b)
  }

  /** The tree `key` is splayed in, afterwards. */
  function Splayed(t: Tree, key: nat): Tree {
    if t.Leaf? then Leaf else SplayedFrom(t, Leaf, Leaf, key)
  }

  /** What one turn of the loop makes of it. */
  lemma SplayedTurns(cur: Tree, a: Tree, b: Tree, key: nat)
    requires cur.Node?
    ensures key < cur.r.base && cur.l.Node? && key < cur.l.r.base && cur.l.l.Leaf? ==>
      SplayedFrom(cur, a, b, key) == Assembled(RotatedRight(cur), a, b)
    ensures key < cur.r.base && cur.l.Node? && key < cur.l.r.base && cur.l.l.Node? ==>
      var c := RotatedRight(cur);
      SplayedFrom(cur, a, b, key) == SplayedFrom(c.l, a, FillLeft(b, Node(Leaf, c.p, c.r, c.rt)), key)
    ensures key < cur.r.base && cur.l.Node? && key >= cur.l.r.base ==>
      SplayedFrom(cur, a, b, key) == SplayedFrom(cur.l, a, FillLeft(b, Node(Leaf, cur.p, cur.r, cur.rt)), key)
    ensures key > cur.r.base && cur.rt.Node? && key > cur.rt.r.base && cur.rt.rt.Leaf? ==>
      SplayedFrom(cur, a, b, key) == Assembled(RotatedLeft(cur), a, b)
    ensures key > cur.r.base && cur.rt.Node? && key > cur.rt.r.base && cur.rt.rt.Node? ==>
      var c := RotatedLeft(cur);
      SplayedFrom(cur, a, b, key) == SplayedFrom(c.rt, FillRight(a, Node(c.l, c.p, c.r, Leaf)), b, key)
    ensures key > cur.r.base && cur.rt.Node? && key <= cur.rt.r.base ==>
      SplayedFrom(cur, a, b, key) == SplayedFrom(cur.rt, FillRight(a, Node(cur.l, cur.p, cur.r, Leaf)), b, key)
    ensures (if key < cur.r.base then cur.l.Leaf? else if key > cur.r.base then cur.rt.Leaf? else true) ==>
      SplayedFrom(cur, a, b, key) == Assembled(cur, a, b)
  {
  }

  // ----- whole steps -----

  /** Loop invariant of a splay for `key` in tree `g`, begun in memory `m0`. */
  ghost predicate Going(m0: Cells, g: Tree, key: nat, m: Cells, t: nat, l: nat, r: nat, nlc: nat, nrc: nat,
    cur: Tree, a: Tree, b: Tree)
  {
    Splaying(m, t, l, r, nlc, nrc, cur, a, b) && Split(g, key, cur, a, b) && SameOutside(m0, m, Nodes(g))
  }

  lemma Begin(m: Cells, g: Tree, key: nat)
    requires g.Node? && Spells(m, g) && Apart(g)
    ensures Going(m, g, key, m, g.p, DUMMY, DUMMY, NULL, NULL, g, Leaf, Leaf)
  {
    hide Splaying, Split, Spells, Apart;
    NothingOff(m, g);
    SplitStart(g, key);
  }

  lemma Here(m0: Cells, g: Tree, key: nat, m: Cells, t: nat, l: nat, r: nat, nlc: nat, nrc: nat, cur: Tree, a: Tree,
      b: Tree)
    requires Going(m0, g, key, m, t, l, r, nlc, nrc, cur, a, b)
    ensures cur.Node? && t == cur.p && t in m && m[t] == Cell(Root(cur.l), Root(cur.rt), cur.r)
    ensures cur.l.Leaf? <==> m[t].lc == NULL
    ensures cur.rt.Leaf? <==> m[t].rc == NULL
    ensures cur.l.Node? ==> cur.l.p in m && m[cur.l.p].r == cur.l.r
    ensures cur.rt.Node? ==> cur.rt.p in m && m[cur.rt.p].r == cur.rt.r
    ensures a.Leaf? <==> l == DUMMY
    ensures b.Leaf? <==> r == DUMMY
  {
    hide Splaying, Split, SameOutside, Nodes;
    AtCurrent(m, t, l, r, nlc, nrc, cur, a, b);
  }

  lemma TurnRight(m0: Cells, g: Tree, key: nat, m: Cells, t: nat, l: nat, r: nat, nlc: nat, nrc: nat, cur: Tree,
      a: Tree, b: Tree)
    requires Going(m0, g, key, m, t, l, r, nlc, nrc, cur, a, b)
    requires cur.Node? && key < cur.r.base && cur.l.Node? && key < cur.l.r.base
    ensures t in m && cur.l.p in m
    ensures Going(m0, g, key, WithRc(WithLc(m, t, m[cur.l.p].rc), cur.l.p, t), cur.l.p, l, r, nlc, nrc,
      RotatedRight(cur), a, b)
  {
    hide Splaying, Split, SameOutside, Nodes, SearchEnd;
    AtCurrent(m, t, l, r, nlc, nrc, cur, a, b);
    SplitNodes(g, key, cur, a, b);
    ZigRight(m, t, l, r, nlc, nrc, cur, a, b);
    RotationsKeepSearch(cur, key);
    SplitRotated(g, key, cur, RotatedRight(cur), a, b);
    SameStore(m0, m, Nodes(g), t, m[cur.l.p].rc);
    SameStore(m0, WithLc(m, t, m[cur.l.p].rc), Nodes(g), cur.l.p, t);
  }

  lemma TurnLeft(m0: Cells, g: Tree, key: nat, m: Cells, t: nat, l: nat, r: nat, nlc: nat, nrc: nat, cur: Tree, a: Tree,
      b: Tree)
    requires Going(m0, g, key, m, t, l, r, nlc, nrc, cur, a, b)
    requires cur.Node? && key > cur.r.base && cur.rt.Node? && key > cur.rt.r.base
    ensures t in m && cur.rt.p in m
    ensures Going(m0, g, key, WithLc(WithRc(m, t, m[cur.rt.p].lc), cur.rt.p, t), cur.rt.p, l, r, nlc, nrc,
      RotatedLeft(cur), a, b)
  {
    hide Splaying, Split, SameOutside, Nodes, SearchEnd;
    AtCurrent(m, t, l, r, nlc, nrc, cur, a, b);
    SplitNodes(g, key, cur, a, b);
    ZigLeft(m, t, l, r, nlc, nrc, cur, a, b);
    RotationsKeepSearch(cur, key);
    SplitRotated(g, key, cur, RotatedLeft(cur), a, b);
    SameStore(m0, m, Nodes(g), t, m[cur.rt.p].lc);
    SameStore(m0, WithRc(m, t, m[cur.rt.p].lc), Nodes(g), cur.rt.p, t);
  }

  lemma GoLeft(m0: Cells, g: Tree, key: nat, m: Cells, t: nat, l: nat, r: nat, nlc: nat, nrc: nat, cur: Tree, a: Tree,
      b: Tree)
    requires Going(m0, g, key, m, t, l, r, nlc, nrc, cur, a, b) && cur.Node? && key < cur.r.base && cur.l.Node?
    ensures b.Node? ==> r in m
    ensures var x := Node(Leaf, cur.p, cur.r, cur.rt);
      var m1 := if b.Leaf? then m else WithLc(m, r, t);
      && t in m1 && m1[t].lc == cur.l.p
      && Going(m0, g, key, m1, cur.l.p, l, t, if b.Leaf? then t else nlc, nrc, cur.l, a, FillLeft(b, x))
  {
    hide Splaying, Split, SameOutside, Nodes, FillLeft;
    AtCurrent(m, t, l, r, nlc, nrc, cur, a, b);
    SplitNodes(g, key, cur, a, b);
    LinkRight(m, t, l, r, nlc, nrc, cur, a, b);
    SplitRight(g, key, cur, a, b, FillLeft(b, Node(Leaf, cur.p, cur.r, cur.rt)));
    if b.Node? {
      RightApart(m, t, l, r, nlc, nrc, cur, a, b);
      SameStore(m0, m, Nodes(g), r, t);
    }
  }

  lemma GoRight(m0: Cells, g: Tree, key: nat, m: Cells, t: nat, l: nat, r: nat, nlc: nat, nrc: nat, cur: Tree, a: Tree,
      b: Tree)
    requires Going(m0, g, key, m, t, l, r, nlc, nrc, cur, a, b) && cur.Node? && key > cur.r.base && cur.rt.Node?
    ensures a.Node? ==> l in m
    ensures var x := Node(cur.l, cur.p, cur.r, Leaf);
      var m1 := if a.Leaf? then m else WithRc(m, l, t);
      && t in m1 && m1[t].rc == cur.rt.p
      && Going(m0, g, key, m1, cur.rt.p, t, r, nlc, if a.Leaf? then t else nrc, cur.rt, FillRight(a, x), b)
  {
    hide Splaying, Split, SameOutside, Nodes, FillRight;
    AtCurrent(m, t, l, r, nlc, nrc, cur, a, b);
    SplitNodes(g, key, cur, a, b);
    LinkLeft(m, t, l, r, nlc, nrc, cur, a, b);
    SplitLeft(g, key, cur, a, b, FillRight(a, Node(cur.l, cur.p, cur.r, Leaf)));
    if a.Node? {
      RightApart(m, t, l, r, nlc, nrc, cur, a, b);
      SameStore(m0, m, Nodes(g), l, t);
    }
  }

  lemma RightApart(m: Cells, t: nat, l: nat, r: nat, nlc: nat, nrc: nat, cur: Tree, a: Tree, b: Tree)
    requires Splaying(m, t, l, r, nlc, nrc, cur, a, b)
    ensures Nodes(a) !! Nodes(cur) && Nodes(b) !! Nodes(cur) && Nodes(a) !! Nodes(b)
  {
    hide Nodes, Spells, Apart, SpellsLeft, SpellsRight;
  }

  /** The loop is left; both trees are closed and hung below the new root. */
  lemma Finish(m0: Cells, g: Tree, key: nat, m: Cells, t: nat, l: nat, r: nat, nlc: nat, nrc: nat, cur: Tree, a: Tree,
      b: Tree)
    requires Going(m0, g, key, m, t, l, r, nlc, nrc, cur, a, b) && cur.Node?
    requires if key < cur.r.base then cur.l.Leaf? else if key > cur.r.base then cur.rt.Leaf? else true
    ensures t in m && (a.Node? ==> l in m) && (b.Node? ==> r in m)
    ensures var m1 := if a.Leaf? then m else WithRc(m, l, m[t].lc);
      var nrc1 := if a.Leaf? then m[t].lc else nrc;
      var m2 := if b.Leaf? then m1 else WithLc(m1, r, m1[t].rc);
      var nlc1 := if b.Leaf? then m1[t].rc else nlc;
      var m3 := WithRc(WithLc(m2, t, nrc1), t, nlc1);
      Spells(m3, Assembled(cur, a, b)) && SameOutside(m0, m3, Nodes(g))
    ensures SplayedTo(g, key, Assembled(cur, a, b))
  {
    hide Splaying, Split, SameOutside, Nodes, FillLeft, FillRight, LeftClosed, BothClosed, SplayedTo, Spells, First,
      Last;
    AtCurrent(m, t, l, r, nlc, nrc, cur, a, b);
    SplitNodes(g, key, cur, a, b);
    SplitEnds(g, key, m, t, l, r, nlc, nrc, cur, a, b);
    CloseLeftTree(m, t, l, r, nlc, nrc, cur, a, b);
    var m1 := if a.Leaf? then m else WithRc(m, l, m[t].lc);
    CloseRightTree(m1, t, r, nlc, cur, b, FillRight(a, cur.l));
    var m2 := if b.Leaf? then m1 else WithLc(m1, r, m1[t].rc);
    NewRoot(m2, t, cur.r, FillRight(a, cur.l), FillLeft(b, cur.rt));
    if a.Node? { SameStore(m0, m, Nodes(g), l, m[t].lc); }
    if b.Node? { SameStore(m0, m1, Nodes(g), r, m1[t].rc); }
    var nrc1 := if a.Leaf? then m[t].lc else nrc;
    SameStore(m0, m2, Nodes(g), t, nrc1);
    SameStore(m0, WithLc(m2, t, nrc1), Nodes(g), t, if b.Leaf? then m1[t].rc else nlc);
  }

  // ----- reading a splayed tree -----

  /** Splaying any key brings up that key's range, or an immediate neighbour:
      no other range starts between the root's base and the key. */
  lemma SplayNeighbour(g: Tree, key: nat, h: Tree, r: Range)
    requires SplayedTo(g, key, h) && Sorted(Contents(g)) && r in Contents(g)
    ensures h.r.base <= key ==> r.base <= h.r.base || r.base > key
    ensures h.r.base >= key ==> r.base >= h.r.base || r.base < key
  {
    hide Nodes, Apart, SearchEnd;
    assert Contents(g) == Contents(h.l) + [h.r] + Contents(h.rt);
    var i :| 0 <= i < |Contents(g)| && Contents(g)[i] == r;
    var k := |Contents(h.l)|;
    assert Contents(g)[k] == h.r;
    if i < k {
      assert r == Contents(h.l)[i];
    } else if i > k {
      assert r == Contents(h.rt)[i - k - 1];
    }
  }

  /** Some range starts at the key: it is the root. */
  lemma FoundAtRoot(l: seq<Range>, r: Range, rt: seq<Range>, key: nat)
    requires Under(l, key) && Over(rt, key)
    requires exists i :: 0 <= i < |l + [r] + rt| && (l + [r] + rt)[i].base == key
    ensures r.base == key
  {
    var c := l + [r] + rt;
    assert forall i :: 0 <= i < |l| ==> l[i] == c[i];
    assert forall i :: |l| < i < |c| ==> rt[i - |l| - 1] == c[i];
  }

  /** All keys are below the one splayed: the root is the last of them. */
  lemma MaximumAtRoot(g: Tree, key: nat, y: Tree)
    requires SplayedTo(g, key, y) && Under(Contents(g), key) && Over(Contents(y.rt), key)
    ensures y.rt.Leaf?
  {
    hide Nodes, Apart, SearchEnd, Under, Over, Contents;
    NodeOf(y.l, y.p, y.r, y.rt);
    NoneBetween(Contents(y.l), y.r, Contents(y.rt), key);
    ContentsEmpty(y.rt);
  }

  lemma UnderParts(l: seq<Range>, r: Range, rt: seq<Range>, key: nat)
    requires Under(l + [r] + rt, key)
    ensures Under(l, key) && r.base < key && Under(rt, key) && (rt != [] ==> rt[0].base < key)
  {
    var c := l + [r] + rt;
    assert forall i :: 0 <= i < |l| ==> l[i] == c[i];
    assert c[|l|] == r;
    assert forall i :: 0 <= i < |rt| ==> rt[i] == c[|l| + 1 + i];
  }

  lemma OverParts(l: seq<Range>, r: Range, rt: seq<Range>, key: nat)
    requires Over(l + [r] + rt, key)
    ensures Over(l, key) && r.base > key && Over(rt, key)
  {
    var c := l + [r] + rt;
    assert forall i :: 0 <= i < |l| ==> l[i] == c[i];
    assert c[|l|] == r;
    assert forall i :: 0 <= i < |rt| ==> rt[i] == c[|l| + 1 + i];
  }

  lemma NoneBetween(l: seq<Range>, r: Range, rt: seq<Range>, key: nat)
    requires Under(l + [r] + rt, key) && Over(rt, key)
    ensures rt == []
  {
    UnderParts(l, r, rt, key);
  }

  lemma ContentsEmpty(t: Tree)
    ensures Contents(t) == [] <==> t.Leaf?
  {
  }

  lemma SortedHalves(l: seq<Range>, r: Range, rt: seq<Range>)
    requires Sorted(l + [r] + rt)
    ensures Sorted(l) && Sorted(rt)
  {
    var c := l + [r] + rt;
    assert forall i :: 0 <= i < |l| ==> l[i] == c[i];
    assert forall i :: 0 <= i < |rt| ==> rt[i] == c[|l| + 1 + i];
  }

  /** The last node on the right edge. */
  lemma RightmostStep(m: Cells, c: Tree)
    requires c.Node? && Spells(m, c) && Apart(c)
    ensures c.p in m && m[c.p].r == c.r && m[c.p].rc == Root(c.rt)
    ensures (m[c.p].rc == NULL <==> c.rt.Leaf?) && Spells(m, c.rt) && Apart(c.rt)
    ensures |Contents(c)| > 0 && c.p != NULL
    ensures c.rt.Leaf? ==> Contents(c)[|Contents(c)| - 1] == c.r
    ensures c.rt.Node? ==>
      |Contents(c.rt)| > 0 && Contents(c)[|Contents(c)| - 1] == Contents(c.rt)[|Contents(c.rt)| - 1] && c.rt.p in m
  {
    hide Spells, Apart, Nodes, Contents;
    NoNodes();
    NodeOf(c.l, c.p, c.r, c.rt);
    SpellsNode(m, c.l, c.p, c.r, c.rt);
    NullIsLeaf(c.rt);
    if c.rt.Node? {
      NodeOf(c.rt.l, c.rt.p, c.rt.r, c.rt.rt);
      SpellsNode(m, c.rt.l, c.rt.p, c.rt.r, c.rt.rt);
    }
  }

  /** The left subtree, its maximum `y` brought up, takes over the right one. */
  lemma UnhookRoot(m: Cells, h: Tree, m1: Cells, y: Tree)
    requires h.Node? && Spells(m, h) && Apart(h)
    requires SameOutside(m, m1, Nodes(h.l)) && Spells(m1, y) && y.Node? && Apart(y) && Nodes(y) == Nodes(h.l)
      && y.rt.Leaf?
    ensures y.p in m1 && h.p in m1 && m1[h.p] == m[h.p] == Cell(Root(h.l), Root(h.rt), h.r)
    ensures var t := Node(y.l, y.p, y.r, h.rt);
      Spells(WithRc(m1, y.p, Root(h.rt)), t) && Apart(t) && Nodes(t) == Nodes(h.l) + Nodes(h.rt)
  {
    hide Spells, Apart, Nodes, Contents;
    NoNodes();
    NodeOf(h.l, h.p, h.r, h.rt);
    SpellsNode(m, h.l, h.p, h.r, h.rt);
    NodeOf(y.l, y.p, y.r, y.rt);
    SpellsNode(m1, y.l, y.p, y.r, y.rt);
    NodeOf(y.l, y.p, y.r, h.rt);
    var m2 := WithRc(m1, y.p, Root(h.rt));
    SpellsFrame(m, m2, h.rt);
    SpellsFrame(m1, m2, y.l);
    SpellsNode(m2, y.l, y.p, y.r, h.rt);
  }

  /** The second splay of a removal, and what it leaves. */
  lemma LeftUnhooked(m: Cells, h: Tree, key: nat, m1: Cells, y: Tree)
    requires h.Node? && Spells(m, h) && Apart(h) && h.l.Node? && Sorted(Contents(h)) && Under(Contents(h.l), key)
    requires SameOutside(m, m1, Nodes(h.l)) && Spells(m1, y) && SplayedTo(h.l, key, y)
    ensures m1.Keys == m.Keys && y.Node? && y.p in m1 && h.p in m1 && m1[h.p] == Cell(Root(h.l), Root(h.rt), h.r)
    ensures var t := Node(y.l, y.p, y.r, h.rt); var m2 := WithRc(m1, y.p, Root(h.rt));
      Spells(m2, t) && Apart(t) && Nodes(t) == Nodes(h.l) + Nodes(h.rt) && Contents(t) == Contents(h.l) + Contents(h.rt)
  {
    hide Spells, Apart, Nodes, Contents, SearchEnd, Sorted, Under, Over, SplayedTo, SameOutside;
    NoNodes();
    NodeOf(h.l, h.p, h.r, h.rt);
    SortedHalves(Contents(h.l), h.r, Contents(h.rt));
    SplayedFacts(h.l, key, y);
    SplayKeys(m, m1, h.l);
    SplayedSides(h.l, key, y);
    MaximumAtRoot(h.l, key, y);
    NodeOf(y.l, y.p, y.r, y.rt);
    NodeOf(y.l, y.p, y.r, h.rt);
    UnhookRoot(m, h, m1, y);
    assert Contents(y.l) + [y.r] == Contents(h.l);
  }

  /** The first splay of a removal brings the node to the root. */
  lemma RemovalStart(m0: Cells, m: Cells, g: Tree, key: nat, h: Tree)
    requires Spells(m, h) && SplayedTo(g, key, h) && Sorted(Contents(g)) && SameOutside(m0, m, Nodes(g))
    requires exists i :: 0 <= i < |Contents(g)| && Contents(g)[i].base == key
    ensures h.Node? && m.Keys == m0.Keys && h.p in m && m[h.p] == Cell(Root(h.l), Root(h.rt), h.r) && h.r.base == key
    ensures Apart(h) && Spells(m, h.l) && Spells(m, h.rt) && Apart(h.l) && Apart(h.rt)
    ensures Root(h.l) == NULL <==> h.l.Leaf?
    ensures h.p !in Nodes(h.l) + Nodes(h.rt) && Nodes(g) == Nodes(h.l) + Nodes(h.rt) + {h.p}
    ensures Sorted(Contents(h)) && Under(Contents(h.l), key)
    ensures h.l.Leaf? ==> Contents(h.l) == [] && Nodes(h.l) == {}
    ensures var c := Contents(g); var k := |Contents(h.l)|;
      k < |c| && c[k] == h.r && c[..k] + c[k + 1..] == Contents(h.l) + Contents(h.rt)
      && |Contents(h.l) + Contents(h.rt)| == |c| - 1
  {
    hide Spells, Apart, Nodes, Contents, SearchEnd, Sorted, Under, Over, SplayedTo, SameOutside;
    NoNodes();
    SplayedFacts(g, key, h);
    SplayKeys(m0, m, g);
    SplayedSides(g, key, h);
    NodeOf(h.l, h.p, h.r, h.rt);
    SpellsNode(m, h.l, h.p, h.r, h.rt);
    NullIsLeaf(h.l);
    FoundAtRoot(Contents(h.l), h.r, Contents(h.rt), key);
    WithoutAt(Contents(h.l), h.r, Contents(h.rt));
  }

  lemma FreeRoot(m: Cells, t: Tree, p: nat)
    requires p in m && Spells(m, t) && p !in Nodes(t) && m.Keys == Nodes(t) + {p}
    ensures var m' := WithRc(WithLc(m, p, NULL), p, NULL) - {p};
      Spells(m', t) && m'.Keys == Nodes(t) && m'.Keys <= m.Keys
  {
    hide Spells, Nodes;
    SpellsFrame(m, WithRc(WithLc(m, p, NULL), p, NULL) - {p}, t);
  }

  lemma WithoutAt(l: seq<Range>, r: Range, rt: seq<Range>)
    ensures var c := l + [r] + rt; c[|l|] == r && c[..|l|] + c[|l| + 1..] == l + rt && |l + rt| == |c| - 1
  {
  }
}
