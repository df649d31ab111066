/** What a splay is for: it halves the way to what was searched. */
module Halving {
  import opened Ranges
  import opened RangeTree
  import opened Splays

  function Higher(a: nat, b: nat): nat { if a < b then b else a }

  function Height(t: Tree): nat { if t.Leaf? then 0 else 1 + Higher(Height(t.l), Height(t.rt)) }

  /** How many nodes a search for `key` visits. */
  function Visited(t: Tree, key: nat): nat {
    if t.Leaf? then 0
    else if key < t.r.base then 1 + Visited(t.l, key)
    else if key > t.r.base then 1 + Visited(t.rt, key)
    else 1
  }

  /** Greatest height of the subtrees that the search does not enter. */
  function Aside(t: Tree, key: nat): nat {
    if t.Leaf? then 0
    else if key < t.r.base then Higher(Height(t.rt), Aside(t.l, key))
    else if key > t.r.base then Higher(Height(t.l), Aside(t.rt, key))
    else Higher(Height(t.l), Height(t.rt))
  }

  // ----- the trees taken off -----

  /** Length of the left edge, and the greatest height right of it. */
  function LeftEdge(t: Tree): nat { if t.Leaf? then 0 else 1 + LeftEdge(t.l) }

  function BesideLeft(t: Tree): nat { if t.Leaf? then 0 else Higher(Height(t.rt), BesideLeft(t.l)) }

  function RightEdge(t: Tree): nat { if t.Leaf? then 0 else 1 + RightEdge(t.rt) }

  function BesideRight(t: Tree): nat { if t.Leaf? then 0 else Higher(Height(t.l), BesideRight(t.rt)) }

  lemma {:induction false} FilledLeft(t: Tree, x: Tree)
    ensures LeftEdge(FillLeft(t, x)) == LeftEdge(t) + LeftEdge(x)
    ensures BesideLeft(FillLeft(t, x)) == Higher(BesideLeft(t), BesideLeft(x))
    ensures Height(FillLeft(t, x)) <= LeftEdge(t) + Higher(BesideLeft(t), Height(x))
  {
    if t.Node? { FilledLeft(t.l, x); }
  }

  lemma {:induction false} FilledRight(t: Tree, x: Tree)
    ensures RightEdge(FillRight(t, x)) == RightEdge(t) + RightEdge(x)
    ensures BesideRight(FillRight(t, x)) == Higher(BesideRight(t), BesideRight(x))
    ensures Height(FillRight(t, x)) <= RightEdge(t) + Higher(BesideRight(t), Height(x))
  {
    if t.Node? { FilledRight(t.rt, x); }
  }

  lemma AssembledHeight(cur: Tree, a: Tree, b: Tree, z: nat, m: nat)
    requires cur.Node? && Height(cur.l) <= z && Height(cur.rt) <= z && BesideRight(a) <= z && BesideLeft(b) <= z
    requires 2 * RightEdge(a) <= m && 2 * LeftEdge(b) <= m
    ensures 2 * Height(Assembled(cur, a, b)) <= m + 2 * z + 2
  {
    FilledRight(a, cur.l);
    FilledLeft(b, cur.rt);
  }

  /** Where the search stands: `m` nodes are behind it. A side got at most every second
      of them, and one more if the next does not go there. */
  ghost predicate Shared(cur: Tree, a: Tree, b: Tree, key: nat, m: nat, z: nat) {
    && cur.Node? && Aside(cur, key) <= z && BesideRight(a) <= z + 1 && BesideLeft(b) <= z + 1
    && 2 * RightEdge(a) <= m + (if key <= cur.r.base then 1 else 0)
    && 2 * LeftEdge(b) <= m + (if key >= cur.r.base then 1 else 0)
  }

  lemma {:induction false} HalvedFrom(cur: Tree, a: Tree, b: Tree, key: nat, m: nat, z: nat)
    requires Shared(cur, a, b, key, m, z)
    ensures 2 * Height(SplayedFrom(cur, a, b, key)) <= m + Visited(cur, key) + 2 * z + 4
    decreases cur
  {
    if key < cur.r.base && cur.l.Node? {
      HalvedLeft(cur, a, b, key, m, z);
    } else if key > cur.r.base && cur.rt.Node? {
      HalvedRight(cur, a, b, key, m, z);
    } else {
      AssembledHeight(cur, a, b, z + 1, m + 1);
    }
  }

  lemma {:induction false} HalvedLeft(cur: Tree, a: Tree, b: Tree, key: nat, m: nat, z: nat)
    requires Shared(cur, a, b, key, m, z) && key < cur.r.base && cur.l.Node?
    ensures 2 * Height(SplayedFrom(cur, a, b, key)) <= m + Visited(cur, key) + 2 * z + 4
    decreases cur, 0
  {
    if key < cur.l.r.base {
      var c := RotatedRight(cur);
      assert Height(c.rt) == 1 + Higher(Height(cur.l.rt), Height(cur.rt)) && Aside(cur.l, key) >= Height(cur.l.rt);
      if c.l.Leaf? {
        AssembledHeight(c, a, b, z + 1, m + 1);
      } else {
        FilledLeft(b, Node(Leaf, c.p, c.r, c.rt));
        HalvedFrom(cur.l.l, a, FillLeft(b, Node(Leaf, c.p, c.r, c.rt)), key, m + 2, z);
      }
    } else {
      FilledLeft(b, Node(Leaf, cur.p, cur.r, cur.rt));
      HalvedFrom(cur.l, a, FillLeft(b, Node(Leaf, cur.p, cur.r, cur.rt)), key, m + 1, z);
    }
  }

  lemma {:induction false} HalvedRight(cur: Tree, a: Tree, b: Tree, key: nat, m: nat, z: nat)
    requires Shared(cur, a, b, key, m, z) && key > cur.r.base && cur.rt.Node?
    ensures 2 * Height(SplayedFrom(cur, a, b, key)) <= m + Visited(cur, key) + 2 * z + 4
    decreases cur, 0
  {
    if key > cur.rt.r.base {
      var c := RotatedLeft(cur);
      assert Height(c.l) == 1 + Higher(Height(cur.l), Height(cur.rt.l)) && Aside(cur.rt, key) >= Height(cur.rt.l);
      if c.rt.Leaf? {
        AssembledHeight(c, a, b, z + 1, m + 1);
      } else {
        FilledRight(a, Node(c.l, c.p, c.r, Leaf));
        HalvedFrom(cur.rt.rt, FillRight(a, Node(c.l, c.p, c.r, Leaf)), b, key, m + 2, z);
      }
    } else {
      FilledRight(a, Node(cur.l, cur.p, cur.r, Leaf));
      HalvedFrom(cur.rt, FillRight(a, Node(cur.l, cur.p, cur.r, Leaf)), b, key, m + 1, z);
    }
  }

  /** Every tree a splay leaves is no higher than half the nodes its search visited,
      plus the highest subtree beside them, plus two. */
  lemma SplayHalves(t: Tree, key: nat)
    ensures Height(Splayed(t, key)) <= Visited(t, key) / 2 + Aside(t, key) + 2
  {
    if t.Node? { HalvedFrom(t, Leaf, Leaf, key, 0, Aside(t, key)); }
  }
}
