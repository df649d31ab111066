/** The nodes of a range map as explicit memory, the binary tree they spell
    out, and the stores of a top-down splay. */
module RangeTree {
  import opened Ranges

  const NULL: nat := 0
  /** Address of the splay's local node `N`; nodes of the map are elsewhere. */
  const DUMMY: nat := 1

  /** `range_node_t`. */
  datatype Cell = Cell(lc: nat, rc: nat, r: Range)

  type Cells = map<nat, Cell>

  datatype Tree = Leaf | Node(l: Tree, p: nat, r: Range, rt: Tree)

  function Root(t: Tree): nat { if t.Leaf? then NULL else t.p }

  function Nodes(t: Tree): set<nat> {
    if t.Leaf? then {} else Nodes(t.l) + {t.p} + Nodes(t.rt)
  }

  /** In-order list of ranges. */
  function Contents(t: Tree): seq<Range> {
    if t.Leaf? then [] else Contents(t.l) + [t.r] + Contents(t.rt)
  }

  predicate Apart(t: Tree) {
    t.Leaf? ||
    (&& t.p > DUMMY && t.p !in Nodes(t.l) && t.p !in Nodes(t.rt) && Nodes(t.l) !! Nodes(t.rt)
     && Apart(t.l) && Apart(t.rt))
  }

  /** The cells spell out the tree. */
  predicate Spells(m: Cells, t: Tree) {
    t.Leaf? || (t.p in m && m[t.p] == Cell(Root(t.l), Root(t.rt), t.r) && Spells(m, t.l) && Spells(m, t.rt))
  }

  lemma {:induction false} SpellsFrame(m: Cells, m': Cells, t: Tree)
    requires Spells(m, t) && forall a :: a in Nodes(t) && a in m ==> a in m' && m'[a] == m[a]
    ensures Spells(m', t)
  {
    if t.Node? {
      SpellsFrame(m, m', t.l);
      SpellsFrame(m, m', t.rt);
    }
  }

  lemma {:induction false} NodesIn(m: Cells, t: Tree)
    requires Spells(m, t)
    ensures forall a :: a in Nodes(t) ==> a in m
  {
    if t.Node? {
      NodesIn(m, t.l);
      NodesIn(m, t.rt);
    }
  }

  // ----- one node at a time -----

  lemma NodeOf(l: Tree, p: nat, r: Range, rt: Tree)
    ensures Nodes(Node(l, p, r, rt)) == Nodes(l) + {p} + Nodes(rt)
    ensures Contents(Node(l, p, r, rt)) == Contents(l) + [r] + Contents(rt)
    ensures Apart(Node(l, p, r, rt)) <==>
      p > DUMMY && p !in Nodes(l) && p !in Nodes(rt) && Nodes(l) !! Nodes(rt) && Apart(l) && Apart(rt)
  {
  }

  lemma SpellsNode(m: Cells, l: Tree, p: nat, r: Range, rt: Tree)
    ensures Spells(m, Node(l, p, r, rt)) <==>
      p in m && m[p] == Cell(Root(l), Root(rt), r) && Spells(m, l) && Spells(m, rt)
  {
  }

  lemma NullIsLeaf(t: Tree)
    requires Apart(t)
    ensures Root(t) == NULL <==> t.Leaf?
  {
  }

  lemma NoNodes()
    ensures Nodes(Leaf) == {} && Contents(Leaf) == [] && Apart(Leaf) && Root(Leaf) == NULL
    ensures forall m: Cells :: Spells(m, Leaf)
  {
  }

  function WithLc(m: Cells, a: nat, p: nat): Cells
    requires a in m
  {
    m[a := m[a].(lc := p)]
  }

  function WithRc(m: Cells, a: nat, p: nat): Cells
    requires a in m
  {
    m[a := m[a].(rc := p)]
  }

  /** The same cells are in use, and those outside `s` are unchanged. */
  ghost predicate SameOutside(m: Cells, m': Cells, s: set<nat>) {
    m'.Keys == m.Keys && forall p :: p in m && p !in s ==> m'[p] == m[p]
  }

  lemma SameAsBefore(m: Cells, s: set<nat>)
    ensures SameOutside(m, m, s)
  {
  }

  lemma SameStore(m: Cells, m': Cells, s: set<nat>, p: nat, c: nat)
    requires SameOutside(m, m', s) && p in s && p in m'
    ensures SameOutside(m, WithLc(m', p, c), s) && SameOutside(m, WithRc(m', p, c), s)
  {
  }

  /** Cells `s` became cells `s'`, the rest of them freed; cell `top` may hold
      another range; nothing else changed. */
  ghost predicate Shrunk(m: Cells, m': Cells, s: set<nat>, s': set<nat>, top: nat) {
    && s' <= s && m'.Keys == m.Keys - (s - s')
    && forall p :: p in m && p !in s && p != top ==> m'[p] == m[p]
  }

  lemma KeepsCells(m: Cells, m': Cells, s: set<nat>, s': set<nat>, top: nat, t: Tree)
    requires Shrunk(m, m', s, s', top) && Spells(m, t) && Nodes(t) !! s && top !in Nodes(t)
    ensures Spells(m', t)
  {
    hide Spells, Nodes;
    NodesIn(m, t);
    SpellsFrame(m, m', t);
  }

  /** A node is kept and its right child replaced by what is left of it. */
  lemma RightShrunk(m: Cells, m1: Cells, g: Tree, x: Tree, top: nat)
    requires g.Node? && Spells(m, g) && Apart(g) && top in m && top !in Nodes(g)
    requires Spells(m1, x) && Apart(x) && Shrunk(m, m1, Nodes(g.rt), Nodes(x), top)
    ensures g.p in m1
    ensures var h := Node(g.l, g.p, g.r, x); var m2 := WithRc(m1, g.p, Root(x));
      Spells(m2, h) && Apart(h) && Shrunk(m, m2, Nodes(g), Nodes(h), top) && top in m2 && m2[top] == m1[top]
  {
    hide Spells, Apart, Nodes;
    NodeOf(g.l, g.p, g.r, g.rt);
    NodeOf(g.l, g.p, g.r, x);
    SpellsNode(m, g.l, g.p, g.r, g.rt);
    KeepsCells(m, m1, Nodes(g.rt), Nodes(x), top, g.l);
    var m2 := WithRc(m1, g.p, Root(x));
    SpellsFrame(m1, m2, g.l);
    SpellsFrame(m1, m2, x);
    SpellsNode(m2, g.l, g.p, g.r, x);
  }

  lemma LeftShrunk(m: Cells, m1: Cells, g: Tree, x: Tree, top: nat)
    requires g.Node? && Spells(m, g) && Apart(g) && top in m && top !in Nodes(g)
    requires Spells(m1, x) && Apart(x) && Shrunk(m, m1, Nodes(g.l), Nodes(x), top)
    ensures g.p in m1
    ensures var h := Node(x, g.p, g.r, g.rt); var m2 := WithLc(m1, g.p, Root(x));
      Spells(m2, h) && Apart(h) && Shrunk(m, m2, Nodes(g), Nodes(h), top) && top in m2 && m2[top] == m1[top]
  {
    hide Spells, Apart, Nodes;
    NodeOf(g.l, g.p, g.r, g.rt);
    NodeOf(x, g.p, g.r, g.rt);
    SpellsNode(m, g.l, g.p, g.r, g.rt);
    KeepsCells(m, m1, Nodes(g.l), Nodes(x), top, g.rt);
    var m2 := WithLc(m1, g.p, Root(x));
    SpellsFrame(m1, m2, g.rt);
    SpellsFrame(m1, m2, x);
    SpellsNode(m2, x, g.p, g.r, g.rt);
  }

  /** Node `g.p`, cut off its left subtree, is freed with its right subtree. */
  lemma RightHalfFreed(m: Cells, g: Tree, top: nat, r: Range)
    requires g.Node? && Spells(m, g) && Apart(g) && top in m && top !in Nodes(g)
    ensures g.p in m && g.p != top
    ensures var m1 := WithLc(m[top := m[top].(r := r)], g.p, NULL); var dead := Node(Leaf, g.p, g.r, g.rt);
      && Spells(m1, dead) && Apart(dead) && Spells(m1 - Nodes(dead), g.l)
      && top in m1 - Nodes(dead) && (m1 - Nodes(dead))[top] == m[top].(r := r) && top !in Nodes(g.l)
      && forall m2, s :: Shrunk(m1 - Nodes(dead), m2, Nodes(g.l), s, top) ==> Shrunk(m, m2, Nodes(g), s, top)
  {
    hide Spells, Apart, Nodes;
    NoNodes();
    NodeOf(g.l, g.p, g.r, g.rt);
    NodeOf(Leaf, g.p, g.r, g.rt);
    SpellsNode(m, g.l, g.p, g.r, g.rt);
    var m1 := WithLc(m[top := m[top].(r := r)], g.p, NULL);
    SpellsFrame(m, m1, g.rt);
    SpellsFrame(m, m1, g.l);
    SpellsNode(m1, Leaf, g.p, g.r, g.rt);
    NodesIn(m, g.l);
    SpellsFrame(m1, m1 - Nodes(Node(Leaf, g.p, g.r, g.rt)), g.l);
  }

  lemma LeftHalfFreed(m: Cells, g: Tree, top: nat, r: Range)
    requires g.Node? && Spells(m, g) && Apart(g) && top in m && top !in Nodes(g)
    ensures g.p in m && g.p != top
    ensures var m1 := WithRc(m[top := m[top].(r := r)], g.p, NULL); var dead := Node(g.l, g.p, g.r, Leaf);
      && Spells(m1, dead) && Apart(dead) && Spells(m1 - Nodes(dead), g.rt)
      && top in m1 - Nodes(dead) && (m1 - Nodes(dead))[top] == m[top].(r := r) && top !in Nodes(g.rt)
      && forall m2, s :: Shrunk(m1 - Nodes(dead), m2, Nodes(g.rt), s, top) ==> Shrunk(m, m2, Nodes(g), s, top)
  {
    hide Spells, Apart, Nodes;
    NoNodes();
    NodeOf(g.l, g.p, g.r, g.rt);
    NodeOf(g.l, g.p, g.r, Leaf);
    SpellsNode(m, g.l, g.p, g.r, g.rt);
    var m1 := WithRc(m[top := m[top].(r := r)], g.p, NULL);
    SpellsFrame(m, m1, g.rt);
    SpellsFrame(m, m1, g.l);
    SpellsNode(m1, g.l, g.p, g.r, Leaf);
    NodesIn(m, g.rt);
    SpellsFrame(m1, m1 - Nodes(Node(g.l, g.p, g.r, Leaf)), g.rt);
  }

  /** Tree `t` and the set `extra` are all there is. */
  ghost predicate AllOf(m: Cells, t: Tree, extra: set<nat>) {
    Spells(m, t) && Apart(t) && extra !! Nodes(t) && m.Keys == Nodes(t) + extra
  }

  /** Once the left subtree `l` of root `n` has shrunk to `x`. */
  lemma RootedLeft(m: Cells, m1: Cells, l: Tree, n: nat, rt: Tree, x: Tree, extra: set<nat>)
    requires n in m && AllOf(m, Node(l, n, m[n].r, rt), extra)
    requires Shrunk(m, m1, Nodes(l), Nodes(x), n) && n in m1 && m1[n].rc == m[n].rc && Spells(m1, x) && Apart(x)
    ensures AllOf(WithLc(m1, n, Root(x)), Node(x, n, m1[n].r, rt), extra)
    ensures m1.Keys <= m.Keys
    ensures Contents(Node(x, n, m1[n].r, rt)) == Contents(x) + [m1[n].r] + Contents(rt)
  {
    hide Spells, Apart, Nodes, Contents;
    NodeOf(l, n, m[n].r, rt);
    NodeOf(x, n, m1[n].r, rt);
    SpellsNode(m, l, n, m[n].r, rt);
    KeepsCells(m, m1, Nodes(l), Nodes(x), n, rt);
    var m2 := WithLc(m1, n, Root(x));
    SpellsFrame(m1, m2, rt);
    SpellsFrame(m1, m2, x);
    SpellsNode(m2, x, n, m1[n].r, rt);
  }

  lemma RootedRight(m: Cells, m1: Cells, l: Tree, n: nat, rt: Tree, x: Tree, extra: set<nat>)
    requires n in m && AllOf(m, Node(l, n, m[n].r, rt), extra)
    requires Shrunk(m, m1, Nodes(rt), Nodes(x), n) && n in m1 && m1[n].lc == m[n].lc && Spells(m1, x) && Apart(x)
    ensures AllOf(WithRc(m1, n, Root(x)), Node(l, n, m1[n].r, x), extra)
    ensures m1.Keys <= m.Keys
    ensures Contents(Node(l, n, m1[n].r, x)) == Contents(l) + [m1[n].r] + Contents(x)
  {
    hide Spells, Apart, Nodes, Contents;
    NodeOf(l, n, m[n].r, rt);
    NodeOf(l, n, m1[n].r, x);
    SpellsNode(m, l, n, m[n].r, rt);
    KeepsCells(m, m1, Nodes(rt), Nodes(x), n, l);
    var m2 := WithRc(m1, n, Root(x));
    SpellsFrame(m1, m2, l);
    SpellsFrame(m1, m2, x);
    SpellsNode(m2, l, n, m1[n].r, x);
  }

  /** The root alone is given another range. */
  lemma RootRange(m: Cells, t: Tree, r: Range, extra: set<nat>)
    requires t.Node? && AllOf(m, t, extra)
    ensures t.p in m
    ensures var m1 := m[t.p := m[t.p].(r := r)];
      AllOf(m1, t.(r := r), extra) && Spells(m1, t.l) && Spells(m1, t.rt)
      && m1[t.p].lc == Root(t.l) && m1[t.p].rc == Root(t.rt)
      && Apart(t.l) && Apart(t.rt) && t.p !in Nodes(t.l) && t.p !in Nodes(t.rt)
  {
    hide Spells, Apart, Nodes;
    NodeOf(t.l, t.p, t.r, t.rt);
    NodeOf(t.l, t.p, r, t.rt);
    SpellsNode(m, t.l, t.p, t.r, t.rt);
    var m1 := m[t.p := m[t.p].(r := r)];
    SpellsFrame(m, m1, t.l);
    SpellsFrame(m, m1, t.rt);
    SpellsNode(m1, t.l, t.p, r, t.rt);
  }

  lemma RootChildren(m: Cells, t: Tree, extra: set<nat>)
    requires t.Node? && AllOf(m, t, extra)
    ensures t.p in m && m[t.p] == Cell(Root(t.l), Root(t.rt), t.r)
    ensures Spells(m, t.l) && Spells(m, t.rt) && Apart(t.l) && Apart(t.rt) && t.p !in Nodes(t.l) && t.p !in Nodes(t.rt)
  {
    hide Spells, Apart, Nodes;
    NodeOf(t.l, t.p, t.r, t.rt);
    SpellsNode(m, t.l, t.p, t.r, t.rt);
  }

  lemma AllOfValid(m: Cells, t: Tree)
    requires AllOf(m, t, {})
    ensures Spells(m, t) && Apart(t) && m.Keys == Nodes(t)
  {
  }

  lemma DropExtra(m: Cells, t: Tree, n: nat)
    requires AllOf(m, t, {n})
    ensures Spells(m - {n}, t) && Apart(t) && (m - {n}).Keys == Nodes(t)
  {
    hide Spells, Apart, Nodes;
    NodesIn(m, t);
    SpellsFrame(m, m - {n}, t);
  }

  /** `n` becomes the root, the old root's left subtree its left, the rest its right. */
  lemma HangBefore(m: Cells, h: Tree, n: nat)
    requires h.Node? && AllOf(m, h, {n}) && n > DUMMY
    ensures n in m && h.p in m
    ensures var m1 := WithLc(WithRc(WithLc(m, n, m[h.p].lc), n, h.p), h.p, NULL);
      AllOf(m1, Node(h.l, n, m[n].r, Node(Leaf, h.p, h.r, h.rt)), {}) && m1[n].r == m[n].r
  {
    hide Spells, Apart, Nodes;
    NoNodes();
    NodeOf(h.l, h.p, h.r, h.rt);
    SpellsNode(m, h.l, h.p, h.r, h.rt);
    NodeOf(Leaf, h.p, h.r, h.rt);
    NodeOf(h.l, n, m[n].r, Node(Leaf, h.p, h.r, h.rt));
    var m1 := WithLc(WithRc(WithLc(m, n, m[h.p].lc), n, h.p), h.p, NULL);
    SpellsFrame(m, m1, h.l);
    SpellsFrame(m, m1, h.rt);
    SpellsNode(m1, Leaf, h.p, h.r, h.rt);
    SpellsNode(m1, h.l, n, m[n].r, Node(Leaf, h.p, h.r, h.rt));
  }

  lemma HangAfter(m: Cells, h: Tree, n: nat)
    requires h.Node? && AllOf(m, h, {n}) && n > DUMMY
    ensures n in m && h.p in m
    ensures var m1 := WithRc(WithLc(WithRc(m, n, m[h.p].rc), n, h.p), h.p, NULL);
      AllOf(m1, Node(Node(h.l, h.p, h.r, Leaf), n, m[n].r, h.rt), {}) && m1[n].r == m[n].r
  {
    hide Spells, Apart, Nodes;
    NoNodes();
    NodeOf(h.l, h.p, h.r, h.rt);
    SpellsNode(m, h.l, h.p, h.r, h.rt);
    NodeOf(h.l, h.p, h.r, Leaf);
    NodeOf(Node(h.l, h.p, h.r, Leaf), n, m[n].r, h.rt);
    var m1 := WithRc(WithLc(WithRc(m, n, m[h.p].rc), n, h.p), h.p, NULL);
    SpellsFrame(m, m1, h.l);
    SpellsFrame(m, m1, h.rt);
    SpellsNode(m1, h.l, h.p, h.r, Leaf);
    SpellsNode(m1, Node(h.l, h.p, h.r, Leaf), n, m[n].r, h.rt);
  }

  // ----- search path -----

  /** Last node on the path of a binary search for `key`. */
  function SearchEnd(t: Tree, key: nat): Range
    requires t.Node?
  {
    if key < t.r.base then
      if t.l.Leaf? then t.r else SearchEnd(t.l, key)
    else if key > t.r.base then
      if t.rt.Leaf? then t.r else SearchEnd(t.rt, key)
    else t.r
  }

  /** Its place in the in-order list. */
  function SearchIndex(t: Tree, key: nat): nat {
    if t.Leaf? then 0
    else if key < t.r.base then
      if t.l.Leaf? then 0 else SearchIndex(t.l, key)
    else if key > t.r.base then
      if t.rt.Leaf? then |Contents(t.l)| else |Contents(t.l)| + 1 + SearchIndex(t.rt, key)
    else |Contents(t.l)|
  }

  lemma {:induction false} SearchIndexOf(t: Tree, key: nat)
    requires t.Node?
    ensures SearchIndex(t, key) < |Contents(t)| && Contents(t)[SearchIndex(t, key)] == SearchEnd(t, key)
  {
    if key < t.r.base && t.l.Node? {
      SearchIndexOf(t.l, key);
    } else if key > t.r.base && t.rt.Node? {
      SearchIndexOf(t.rt, key);
    }
  }

  // ----- trees with a hole -----

  /** The left tree of a splay: its last node's `rc` is not set yet. */
  predicate SpellsLeft(m: Cells, t: Tree) {
    t.Leaf? ||
    (&& t.p in m && m[t.p].lc == Root(t.l) && m[t.p].r == t.r && Spells(m, t.l)
     && (t.rt.Leaf? || (m[t.p].rc == Root(t.rt) && SpellsLeft(m, t.rt))))
  }

  /** The right tree of a splay: its first node's `lc` is not set yet. */
  predicate SpellsRight(m: Cells, t: Tree) {
    t.Leaf? ||
    (&& t.p in m && m[t.p].rc == Root(t.rt) && m[t.p].r == t.r && Spells(m, t.rt)
     && (t.l.Leaf? || (m[t.p].lc == Root(t.l) && SpellsRight(m, t.l))))
  }

  function Last(t: Tree): nat { if t.Leaf? then DUMMY else if t.rt.Leaf? then t.p else Last(t.rt) }

  function First(t: Tree): nat { if t.Leaf? then DUMMY else if t.l.Leaf? then t.p else First(t.l) }

  function FillRight(t: Tree, x: Tree): Tree { if t.Leaf? then x else t.(rt := FillRight(t.rt, x)) }

  function FillLeft(t: Tree, x: Tree): Tree { if t.Leaf? then x else t.(l := FillLeft(t.l, x)) }

  lemma {:induction false} SpellsLeftFrame(m: Cells, m': Cells, t: Tree)
    requires SpellsLeft(m, t) && forall a :: a in Nodes(t) && a in m ==> a in m' && m'[a] == m[a]
    ensures SpellsLeft(m', t)
  {
    if t.Node? {
      SpellsFrame(m, m', t.l);
      SpellsLeftFrame(m, m', t.rt);
    }
  }

  lemma {:induction false} SpellsRightFrame(m: Cells, m': Cells, t: Tree)
    requires SpellsRight(m, t) && forall a :: a in Nodes(t) && a in m ==> a in m' && m'[a] == m[a]
    ensures SpellsRight(m', t)
  {
    if t.Node? {
      SpellsFrame(m, m', t.rt);
      SpellsRightFrame(m, m', t.l);
    }
  }

  lemma {:induction false} LastIn(t: Tree)
    ensures t.Node? ==> Last(t) in Nodes(t)
  {
    if t.Node? { LastIn(t.rt); }
  }

  lemma {:induction false} FirstIn(t: Tree)
    ensures t.Node? ==> First(t) in Nodes(t)
  {
    if t.Node? { FirstIn(t.l); }
  }

  lemma {:induction false} FillRightSets(t: Tree, x: Tree)
    ensures Contents(FillRight(t, x)) == Contents(t) + Contents(x)
    ensures Nodes(FillRight(t, x)) == Nodes(t) + Nodes(x)
    ensures Apart(t) && Apart(x) && Nodes(t) !! Nodes(x) ==> Apart(FillRight(t, x))
    ensures Root(FillRight(t, x)) == if t.Leaf? then Root(x) else Root(t)
  {
    if t.Node? {
      FillRightSets(t.rt, x);
      assert Contents(FillRight(t, x)) == Contents(t.l) + [t.r] + (Contents(t.rt) + Contents(x));
    }
  }

  lemma {:induction false} FillLeftSets(t: Tree, x: Tree)
    ensures Contents(FillLeft(t, x)) == Contents(x) + Contents(t)
    ensures Nodes(FillLeft(t, x)) == Nodes(t) + Nodes(x)
    ensures Apart(t) && Apart(x) && Nodes(t) !! Nodes(x) ==> Apart(FillLeft(t, x))
    ensures Root(FillLeft(t, x)) == if t.Leaf? then Root(x) else Root(t)
  {
    if t.Node? {
      FillLeftSets(t.l, x);
      assert Contents(FillLeft(t, x)) == (Contents(x) + Contents(t.l)) + [t.r] + Contents(t.rt);
    }
  }

  /** Setting the open `rc` closes the left tree over `x`. */
  lemma {:induction false} CloseLeft(m: Cells, t: Tree, x: Tree)
    requires SpellsLeft(m, t) && t.Node? && Apart(t) && Spells(m, x) && Nodes(t) !! Nodes(x)
    ensures Last(t) in m && Spells(WithRc(m, Last(t), Root(x)), FillRight(t, x))
  {
    LastIn(t);
    if t.rt.Node? {
      LastIn(t.rt);
      CloseLeft(m, t.rt, x);
      FillRightSets(t.rt, x);
      SpellsFrame(m, WithRc(m, Last(t), Root(x)), t.l);
    } else {
      SpellsFrame(m, WithRc(m, Last(t), Root(x)), t.l);
      SpellsFrame(m, WithRc(m, Last(t), Root(x)), x);
    }
  }

  lemma {:induction false} CloseRight(m: Cells, t: Tree, x: Tree)
    requires SpellsRight(m, t) && t.Node? && Apart(t) && Spells(m, x) && Nodes(t) !! Nodes(x)
    ensures First(t) in m && Spells(WithLc(m, First(t), Root(x)), FillLeft(t, x))
  {
    FirstIn(t);
    if t.l.Node? {
      FirstIn(t.l);
      CloseRight(m, t.l, x);
      FillLeftSets(t.l, x);
      SpellsFrame(m, WithLc(m, First(t), Root(x)), t.rt);
    } else {
      SpellsFrame(m, WithLc(m, First(t), Root(x)), t.rt);
      SpellsFrame(m, WithLc(m, First(t), Root(x)), x);
    }
  }

  /** Linking a node at the open end keeps the left tree open below it. */
  lemma {:induction false} ExtendLeft(m: Cells, t: Tree, x: Tree)
    requires SpellsLeft(m, t) && t.Node? && Apart(t) && SpellsLeft(m, x) && x.Node? && Nodes(t) !! Nodes(x)
    ensures Last(t) in m && SpellsLeft(WithRc(m, Last(t), Root(x)), FillRight(t, x))
    ensures Last(FillRight(t, x)) == Last(x)
  {
    LastIn(t);
    if t.rt.Node? {
      LastIn(t.rt);
      ExtendLeft(m, t.rt, x);
      FillRightSets(t.rt, x);
      SpellsFrame(m, WithRc(m, Last(t), Root(x)), t.l);
    } else {
      SpellsFrame(m, WithRc(m, Last(t), Root(x)), t.l);
      SpellsLeftFrame(m, WithRc(m, Last(t), Root(x)), x);
    }
  }

  lemma {:induction false} ExtendRight(m: Cells, t: Tree, x: Tree)
    requires SpellsRight(m, t) && t.Node? && Apart(t) && SpellsRight(m, x) && x.Node? && Nodes(t) !! Nodes(x)
    ensures First(t) in m && SpellsRight(WithLc(m, First(t), Root(x)), FillLeft(t, x))
    ensures First(FillLeft(t, x)) == First(x)
  {
    FirstIn(t);
    if t.l.Node? {
      FirstIn(t.l);
      ExtendRight(m, t.l, x);
      FillLeftSets(t.l, x);
      SpellsFrame(m, WithLc(m, First(t), Root(x)), t.rt);
    } else {
      SpellsFrame(m, WithLc(m, First(t), Root(x)), t.rt);
      SpellsRightFrame(m, WithLc(m, First(t), Root(x)), x);
    }
  }
}
