/** Range maps whose ranges carry the task they came from. */
module TaskRanges {
  import opened Ranges
  import opened RangeTree
  import opened Splays
  import opened Coalesce
  import opened Scans
  import opened RangeMaps

  /** How `map_add_range_from_task` ends: the last two end the process. */
  datatype Outcome = Added | Replaced | Dropped | Aborted | AssertFailed {
    predicate Done() { Added? || Replaced? || Dropped? }
  }

  predicate SameExtent(a: Range, b: Range) { a.base == b.base && a.size == b.size }

  /** The ranges after `n` was taken at place `i` with this outcome. */
  ghost predicate Recorded(rs: seq<Range>, n: Range, o: Outcome, i: nat, rs': seq<Range>) {
    match o
    case Added => i <= |rs| && Under(rs[..i], n.base) && Over(rs[i..], n.base) && rs' == rs[..i] + [n] + rs[i..]
    case Replaced =>
      i < |rs| && SameExtent(rs[i], n) && rs[i].task <= n.task && rs' == rs[i := rs[i].(rec := n.rec, task := n.task)]
    case Dropped => i < |rs| && SameExtent(rs[i], n) && rs[i].task > n.task && rs' == rs
    case _ => i < |rs| && Hits(n, rs[i]) && !SameExtent(n, rs[i])
  }

  // ----- when a range is refused -----

  /** The part for overlaps is entered: the new range shares bytes with the splayed
      root or, when not with that, with its left child. */
  predicate Meets(h: Tree, n: Range) {
    h.Node? && (Hits(n, h.r) || (h.l.Node? && Hits(n, h.l.r)))
  }

  /** The speculation is aborted: there is an overlap, and the root has another extent. */
  predicate Refuses(h: Tree, n: Range) { Meets(h, n) && !SameExtent(n, h.r) }

  /** The assertion on the right fails: the only overlap looked at is with the right
      child of a root that starts before. */
  predicate Asserts(h: Tree, n: Range) {
    h.Node? && !Meets(h, n) && h.r.base < n.base && h.rt.Node? && n.End() > h.rt.r.base
  }

  /** The tree with node `p` linked in above the splayed one. */
  function Hung(h: Tree, p: nat, n: Range): Tree {
    if h.Leaf? then Node(Leaf, p, n, Leaf)
    else if n.base < h.r.base then Node(h.l, p, n, Node(Leaf, h.p, h.r, h.rt))
    else Node(Node(h.l, h.p, h.r, Leaf), p, n, h.rt)
  }

  lemma NothingBeside(key: nat, n: Range)
    ensures Under([], key) && Over([], key) && [][..0] + [n] + [][0..] == [n]
  {
  }

  /** The root's range in the list, and the places next to it. */
  lemma RootSplits(l: seq<Range>, r: Range, rt: seq<Range>, key: nat)
    requires Under(l, key) && Over(rt, key)
    ensures var c := l + [r] + rt;
      && |l| < |c| && c[|l|] == r
      && c[..|l|] == l && c[|l|..] == [r] + rt && c[..|l| + 1] == l + [r] && c[|l| + 1..] == rt
      && (key < r.base ==> Over([r] + rt, key)) && (key > r.base ==> Under(l + [r], key))
      && (forall r' :: c[|l| := r'] == l + [r'] + rt)
      && (forall i :: 0 <= i < |l| ==> c[i] == l[i])
      && (forall i :: 0 <= i < |rt| ==> c[|l| + 1 + i] == rt[i])
  {
  }

  /** The root of a subtree, as its parent sees it. */
  lemma ChildRange(m: Cells, t: Tree, key: nat)
    requires Spells(m, t) && Apart(t)
    ensures Root(t) == NULL <==> t.Leaf?
    ensures t.Node? ==>
      t.p in m && m[t.p].r == t.r && |Contents(t.l)| < |Contents(t)| && Contents(t)[|Contents(t.l)|] == t.r
    ensures t.Node? && Under(Contents(t), key) ==> t.r.base < key
    ensures t.Node? && Over(Contents(t), key) ==> t.r.base > key
  {
  }

  /** A splayed map `h` with a new node `n` not linked into it yet. */
  ghost predicate Pending(dest: RangeMap, h: Tree, n: nat)
    reads dest
  {
    && h.Node? && AllOf(dest.nodes, h, {n}) && n in dest.nodes && n > DUMMY && dest.size == |Contents(h)|
    && dest.next > DUMMY && (forall p :: p in dest.nodes ==> p < dest.next)
    && Under(Contents(h.l), dest.nodes[n].r.base) && Over(Contents(h.rt), dest.nodes[n].r.base)
    && dest.nodes[n].r.size > 0
  }

  lemma RecordedBefore(l: seq<Range>, top: Range, rt: seq<Range>, n: Range)
    requires Under(l, n.base) && Over(rt, n.base) && n.base < top.base
    ensures var out := l + [n] + ([] + [top] + rt);
      Recorded(l + [top] + rt, n, Added, |l|, out) && |out| == |l + [top] + rt| + 1 && out[|l|] == n
  {
    RootSplits(l, top, rt, n.base);
    assert [] + [top] + rt == [top] + rt;
  }

  lemma RecordedAfter(l: seq<Range>, top: Range, rt: seq<Range>, n: Range)
    requires Under(l, n.base) && Over(rt, n.base) && n.base > top.base
    ensures var out := (l + [top] + []) + [n] + rt;
      Recorded(l + [top] + rt, n, Added, |l| + 1, out) && |out| == |l + [top] + rt| + 1 && out[|l| + 1] == n
  {
    RootSplits(l, top, rt, n.base);
    assert l + [top] + [] == l + [top];
  }

  lemma RecordedFail(l: seq<Range>, top: Range, rt: seq<Range>, n: Range, j: nat, out: seq<Range>)
    requires j < |rt| && Over(rt, n.base) && n.End() > rt[j].base
    ensures Recorded(l + [top] + rt, n, AssertFailed, |l| + 1 + j, out)
  {
    assert (l + [top] + rt)[|l| + 1 + j] == rt[j];
  }

  /** `map_add_range_from_task`, no overlap, left of the root. */
  method LinkBefore(dest: RangeMap, top: nat, n: nat, ghost h: Tree)
    requires Pending(dest, h, n) && top == h.p && dest.nodes[n].r.base < h.r.base
    requires h.l.Node? ==> !Hits(dest.nodes[n].r, h.l.r)
    modifies dest`nodes, dest`size, dest`root, dest`tree
    ensures dest.Valid() && n in dest.nodes && dest.nodes[n].r == old(dest.nodes)[n].r
    ensures dest.tree == Hung(h, n, old(dest.nodes)[n].r)
    ensures var i := |Contents(h.l)|;
      Recorded(Contents(h), old(dest.nodes)[n].r, Added, i, dest.Ranges()) && i < |dest.Ranges()|
        && dest.Ranges()[i] == dest.nodes[n].r
  {
    hide Spells, Apart, Nodes, Contents, Under, Over, AllOf, Recorded;
    ghost var r := dest.nodes[n].r;
    ghost var l, rt := Contents(h.l), Contents(h.rt);
    NoNodes();
    RootChildren(dest.nodes, h, {n});
    NodeOf(h.l, h.p, h.r, h.rt);
    ChildRange(dest.nodes, h.l, r.base);
    RecordedBefore(l, h.r, rt, r);
    HangBefore(dest.nodes, h, n);
    NodeOf(Leaf, top, h.r, h.rt);
    NodeOf(h.l, n, r, Node(Leaf, top, h.r, h.rt));
    dest.nodes := WithLc(dest.nodes, n, dest.nodes[top].lc);
    dest.nodes := WithRc(dest.nodes, n, top);
    assert dest.nodes[n].lc == NULL || dest.nodes[dest.nodes[n].lc].r.End() <= dest.nodes[n].r.base;
    dest.nodes := WithLc(dest.nodes, top, NULL);
    dest.tree := Node(h.l, n, r, Node(Leaf, top, h.r, h.rt));
    dest.root := n;
    dest.size := dest.size + 1;
    AllOfValid(dest.nodes, dest.tree);
  }

  /** The same, right of the root, where an assertion may fail. */
  method LinkAfter(dest: RangeMap, top: nat, n: nat, ghost h: Tree) returns (ok: bool, ghost i: nat)
    requires Pending(dest, h, n) && top == h.p && dest.nodes[n].r.base > h.r.base
    modifies dest`nodes, dest`size, dest`root, dest`tree
    ensures ok <==> !(h.rt.Node? && old(dest.nodes)[n].r.End() > h.rt.r.base)
    ensures ok ==> dest.Valid() && n in dest.nodes && dest.nodes[n].r == old(dest.nodes)[n].r
    ensures ok ==> dest.tree == Hung(h, n, old(dest.nodes)[n].r)
    ensures ok ==> Recorded(Contents(h), old(dest.nodes)[n].r, Added, i, dest.Ranges())
    ensures ok ==> i < |dest.Ranges()| && dest.Ranges()[i] == dest.nodes[n].r
    ensures !ok ==> Recorded(Contents(h), old(dest.nodes)[n].r, AssertFailed, i, dest.Ranges())
  {
    hide Spells, Apart, Nodes, Contents, Under, Over, AllOf, Recorded;
    ghost var r := dest.nodes[n].r;
    ghost var l, rt := Contents(h.l), Contents(h.rt);
    NoNodes();
    RootChildren(dest.nodes, h, {n});
    NodeOf(h.l, h.p, h.r, h.rt);
    ChildRange(dest.nodes, h.rt, r.base);
    HangAfter(dest.nodes, h, n);
    NodeOf(h.l, top, h.r, Leaf);
    NodeOf(Node(h.l, top, h.r, Leaf), n, r, h.rt);
    dest.nodes := WithRc(dest.nodes, n, dest.nodes[top].rc);
    dest.nodes := WithLc(dest.nodes, n, top);
    if dest.nodes[n].rc != NULL && dest.nodes[n].r.End() > dest.nodes[dest.nodes[n].rc].r.base {
      i := |l| + 1 + |Contents(h.rt.l)|;
      RecordedFail(l, h.r, rt, r, |Contents(h.rt.l)|, dest.Ranges());
      return false, i;
    }
    RecordedAfter(l, h.r, rt, r);
    dest.nodes := WithRc(dest.nodes, top, NULL);
    ok, i := true, |l| + 1;
    dest.tree := Node(Node(h.l, top, h.r, Leaf), n, r, h.rt);
    dest.root := n;
    dest.size := dest.size + 1;
    AllOfValid(dest.nodes, dest.tree);
  }

  /** The part for an exact overlap: the later task's record is kept. */
  method KeepLater(dest: RangeMap, top: nat, n: nat, ghost h: Tree) returns (o: Outcome)
    requires Pending(dest, h, n) && top == h.p && SameExtent(dest.nodes[n].r, h.r)
    modifies dest`nodes, dest`root, dest`tree
    ensures o == if h.r.task > old(dest.nodes)[n].r.task then Dropped else Replaced
    ensures dest.Valid() && top in dest.nodes
    ensures Recorded(Contents(h), old(dest.nodes)[n].r, o, |Contents(h.l)|, dest.Ranges())
    ensures |Contents(h.l)| < |dest.Ranges()| && dest.nodes[top].r == dest.Ranges()[|Contents(h.l)|]
  {
    hide Spells, Apart, Nodes, Contents, Under, Over, AllOf;
    RootChildren(dest.nodes, h, {n});
    NodeOf(h.l, h.p, h.r, h.rt);
    RootSplits(Contents(h.l), h.r, Contents(h.rt), dest.nodes[n].r.base);
    var data, newtask := dest.nodes[n].r.rec, dest.nodes[n].r.task;
    if dest.nodes[top].r.task > newtask {
      o := Dropped;
      dest.tree := h;
    } else {
      o := Replaced;
      ghost var r' := h.r.(rec := data, task := newtask);
      RootRange(dest.nodes, h, r', {n});
      dest.nodes := dest.nodes[top := dest.nodes[top].(r := dest.nodes[top].r.(rec := data, task := newtask))];
      dest.tree := h.(r := r');
      NodeOf(h.l, h.p, r', h.rt);
    }
    DropExtra(dest.nodes, dest.tree, n);
    RootChildren(dest.nodes, dest.tree, {n});
    dest.nodes := dest.nodes - {n};
    dest.root := top;
  }

  lemma SplayedAll(m: Cells, m': Cells, g: Tree, key: nat, h: Tree, n: nat)
    requires SplayedTo(g, key, h) && Sorted(Contents(g)) && Spells(m', h) && SameOutside(m, m', Nodes(g))
    requires m.Keys == Nodes(g) + {n} && n !in Nodes(g)
    ensures h.r == SearchEnd(g, key)
    ensures h.Node? && AllOf(m', h, {n}) && n in m && n in m' && m'[n] == m[n] && Contents(h) == Contents(g)
    ensures Under(Contents(h.l), key) && Over(Contents(h.rt), key) && m'.Keys == m.Keys
  {
    hide Spells, Apart, Nodes, Contents, Under, Over, SearchEnd;
  }

  lemma NothingSplayed(key: nat)
    ensures Splayed(Leaf, key) == Leaf
  {
  }

  lemma RecordedAbort(rs: seq<Range>, n: Range, i: nat, rs': seq<Range>)
    requires i < |rs| && Hits(n, rs[i]) && !SameExtent(n, rs[i])
    ensures Recorded(rs, n, Aborted, i, rs')
  {
  }

  lemma RecordedFirst(n: Range)
    ensures Recorded([], n, Added, 0, [n])
  {
    NothingBeside(n.base, n);
  }

  /** `map_add_range_from_task`. */
  method AddRangeFromTask(dest: RangeMap, base: nat, bytes: nat, obj: Data, task: nat)
    returns (o: Outcome, approved: nat, ghost i: nat)
    requires dest.Valid() && Sorted(dest.Ranges()) && bytes > 0
    modifies dest
    ensures Recorded(old(dest.Ranges()), Range(base, bytes, obj, task), o, i, dest.Ranges())
    ensures old(dest.tree).Node? ==>
      Splayed(old(dest.tree), base).Node? && Splayed(old(dest.tree), base).r == SearchEnd(old(dest.tree), base)
    ensures var h, n := Splayed(old(dest.tree), base), Range(base, bytes, obj, task);
      && (o.Aborted? <==> Refuses(h, n)) && (o.AssertFailed? <==> Asserts(h, n))
      && (o.Replaced? <==> h.Node? && SameExtent(n, h.r) && h.r.task <= task)
      && (o.Dropped? <==> h.Node? && SameExtent(n, h.r) && h.r.task > task)
      && (o.Added? ==> dest.tree == Hung(h, old(dest.next), n)) && dest.next == old(dest.next) + 1
    ensures o.Done() ==> dest.Valid() && i < |dest.Ranges()|
    ensures o.Done() ==> approved in dest.nodes && dest.nodes[approved].r == dest.Ranges()[i]
  {
    hide Spells, Apart, Nodes, Contents, Under, Over, Sorted, SplayedTo, SearchIndex, SearchEnd, AllOf, SameOutside,
      Splayed, Recorded;
    ghost var g, rs := dest.tree, dest.Ranges();
    ghost var r := Range(base, bytes, obj, task);
    NullIsLeaf(g);
    NoNodes();
    NodesIn(dest.nodes, g);
    var n := dest.next;
    dest.next := dest.next + 1;
    dest.nodes := dest.nodes[n := Cell(NULL, NULL, Range(base, bytes, obj, task))];
    SpellsFrame(old(dest.nodes), dest.nodes, g);
    ghost var m := dest.nodes;
    if dest.root == NULL {
      dest.root := n;
      dest.size := 1;
      dest.tree := Node(Leaf, n, r, Leaf);
      NodeOf(Leaf, n, r, Leaf);
      SpellsNode(dest.nodes, Leaf, n, r, Leaf);
      RecordedFirst(r);
      NothingSplayed(base);
      return Added, n, 0;
    }
    var top;
    ghost var h;
    top, h := dest.Splay(dest.root, base, g);
    SplayedAll(m, dest.nodes, g, base, h, n);
    RootChildren(dest.nodes, h, {n});
    NodeOf(h.l, h.p, h.r, h.rt);
    RootSplits(Contents(h.l), h.r, Contents(h.rt), base);
    ChildRange(dest.nodes, h.l, base);
    var target := dest.nodes[top].r;
    var found := Hits(dest.nodes[n].r, target);
    i := |Contents(h.l)|;
    if !found && dest.nodes[top].lc != NULL {
      target := dest.nodes[dest.nodes[top].lc].r;
      found := Hits(dest.nodes[n].r, target);
      if found { i := |Contents(h.l.l)|; }
    }
    if !found {
      if base < dest.nodes[top].r.base {
        LinkBefore(dest, top, n, h);
        return Added, n, |Contents(h.l)|;
      }
      var ok;
      ok, i := LinkAfter(dest, top, n, h);
      return if ok then Added else AssertFailed, n, i;
    }
    if dest.nodes[n].r.base == dest.nodes[top].r.base && dest.nodes[n].r.size == dest.nodes[top].r.size {
      i := |Contents(h.l)|;
      o := KeepLater(dest, top, n, h);
      return o, top, i;
    }
    RecordedAbort(rs, r, i, dest.Ranges());
    return Aborted, NULL, i;
  }

  // ----- overlaps that go unseen -----

  /** Of ranges that start before `n`, in order and apart, some overlaps it exactly when
      the last does. */
  lemma LastReaches(l: seq<Range>, n: Range)
    requires Disjoint(l) && Under(l, n.base)
    ensures (exists r :: r in l && Hits(n, r)) <==> l != [] && l[|l| - 1].End() > n.base
  {
    if l != [] {
      assert l[|l| - 1] in l && (Hits(n, l[|l| - 1]) <==> l[|l| - 1].End() > n.base);
      forall i | 0 <= i < |l| ensures l[i].End() <= l[|l| - 1].End() {
      }
    }
  }

  lemma FirstReached(rt: seq<Range>, n: Range)
    requires Disjoint(rt) && Over(rt, n.base)
    ensures (exists r :: r in rt && Hits(n, r)) <==> rt != [] && rt[0].base < n.End()
  {
    if rt != [] { assert rt[0] in rt && (Hits(n, rt[0]) <==> rt[0].base < n.End()); }
  }

  /** Ranges on the root's other side do not overlap `n`. */
  lemma OtherSide(l: seq<Range>, top: Range, rt: seq<Range>, n: Range)
    requires Disjoint(l + [top] + rt) && !Hits(n, top) && n.size > 0 && n.base != top.base
    ensures Disjoint(l) && Disjoint(rt)
    ensures n.base < top.base ==> forall r :: r in rt ==> !Hits(n, r)
    ensures n.base > top.base ==> forall r :: r in l ==> !Hits(n, r)
  {
    DisjointParts(l, top, rt);
  }

  /** A range that the test does not refuse shares bytes with a stored one exactly when
      the nearest range on the side away from the root reaches it. */
  lemma OverlookedExactly(h: Tree, n: Range)
    requires h.Node? && Disjoint(Contents(h)) && n.size > 0
    requires Under(Contents(h.l), n.base) && Over(Contents(h.rt), n.base)
    requires !Meets(h, n) && n.base != h.r.base
    ensures var l, rt := Contents(h.l), Contents(h.rt);
      (exists r :: r in Contents(h) && Hits(n, r)) <==>
        if n.base < h.r.base then l != [] && l[|l| - 1].End() > n.base else rt != [] && rt[0].base < n.End()
  {
    hide Disjoint, Under, Over, Hits;
    var l, rt := Contents(h.l), Contents(h.rt);
    assert Contents(h) == l + [h.r] + rt;
    OtherSide(l, h.r, rt, n);
    LastReaches(l, n);
    FirstReached(rt, n);
  }

  /** A range added beyond all others goes above the rest. */
  lemma Beyond(t: Tree, p: nat, n: Range)
    requires t.Node? && t.rt.Leaf? && t.r.base < n.base && t.r.End() <= n.base
    requires t.l.Node? ==> t.l.r.base < n.base && t.l.r.End() <= n.base
    ensures Splayed(t, n.base) == t && Hung(t, p, n) == Node(t, p, n, Leaf)
    ensures !Meets(t, n) && !Asserts(t, n)
  {
  }

  /** The splay of the input: the first of four ranges in rising order comes up, with
      the third as its right child. */
  lemma Buried(a: Range, b: Range, c: Range, d: Range, p: nat, q: nat, r: nat, s: nat, n: Range)
    requires a.End() <= n.base < b.base < c.base < d.base && a.base < n.base && n.End() <= c.base
    ensures var t2 := Node(Node(Leaf, p, a, Leaf), q, b, Leaf);
      var h := Node(Leaf, p, a, Node(Node(Leaf, q, b, Leaf), r, c, Node(Leaf, s, d, Leaf)));
      && Splayed(Node(Node(t2, r, c, Leaf), s, d, Leaf), n.base) == h && !Meets(h, n) && !Asserts(h, n)
  {
    hide FillLeft, FillRight;
    var t1 := Node(Leaf, p, a, Leaf);
    var t2 := Node(t1, q, b, Leaf);
    var g := Node(Node(t2, r, c, Leaf), s, d, Leaf);
    var e := Node(Leaf, r, c, Node(Leaf, s, d, Leaf));
    SplayedTurns(g, Leaf, Leaf, n.base);
    assert RotatedRight(g) == Node(t2, r, c, Node(Leaf, s, d, Leaf));
    FilledLeaf(e, q, b);
    SplayedTurns(t2, Leaf, e, n.base);
    SplayedTurns(t1, Leaf, e.(l := Node(Leaf, q, b, Leaf)), n.base);
  }

  lemma FilledLeaf(e: Tree, q: nat, b: Range)
    requires e.Node? && e.l.Leaf?
    ensures FillLeft(Leaf, e) == e && FillLeft(e, Node(Leaf, q, b, Leaf)) == e.(l := Node(Leaf, q, b, Leaf))
    ensures FillLeft(e.(l := Node(Leaf, q, b, Leaf)), Leaf) == e.(l := Node(Leaf, q, b, Leaf))
    ensures FillRight(Leaf, Leaf) == Leaf
  {
    assert FillLeft(Node(Leaf, q, b, Leaf), Leaf) == Node(Leaf, q, b, Leaf);
  }

  lemma First(p: nat, n: Range)
    ensures !Meets(Leaf, n) && !Asserts(Leaf, n) && Hung(Leaf, p, n) == Node(Leaf, p, n, Leaf)
  {
  }

  lemma FourInOrder(a: Range, b: Range, c: Range, d: Range, p: nat, q: nat, r: nat, s: nat)
    ensures var t1 := Node(Leaf, p, a, Leaf);
      var t2 := Node(t1, q, b, Leaf);
      var t3 := Node(t2, r, c, Leaf);
      && Contents(Leaf) == [] && Contents(t1) == [a] && Contents(t2) == [a, b] && Contents(t3) == [a, b, c]
      && Contents(Node(t3, s, d, Leaf)) == [a, b, c, d]
  {
    hide Nodes, Apart;
    assert Contents(Leaf) == [];
    NodeOf(Leaf, p, a, Leaf);
    NodeOf(Node(Leaf, p, a, Leaf), q, b, Leaf);
    NodeOf(Node(Node(Leaf, p, a, Leaf), q, b, Leaf), r, c, Leaf);
    NodeOf(Node(Node(Node(Leaf, p, a, Leaf), q, b, Leaf), r, c, Leaf), s, d, Leaf);
  }

  lemma FiveInOrder(a: Range, n: Range, b: Range, c: Range, d: Range, p: nat, q: nat, r: nat, s: nat, t: nat)
    requires a.base < n.base
    ensures var h := Node(Leaf, p, a, Node(Node(Leaf, q, b, Leaf), r, c, Node(Leaf, s, d, Leaf)));
      Contents(Hung(h, t, n)) == [a, n, b, c, d]
  {
    hide Nodes, Apart, Contents;
    var e, f := Node(Leaf, q, b, Leaf), Node(Leaf, s, d, Leaf);
    ContentsEmpty(Leaf);
    NodeOf(Leaf, q, b, Leaf);
    NodeOf(Leaf, s, d, Leaf);
    NodeOf(e, r, c, f);
    NodeOf(Leaf, p, a, Leaf);
    NodeOf(Node(Leaf, p, a, Leaf), t, n, Node(e, r, c, f));
  }

  /** [10,11), [20,21), [30,31) and [40,41), recorded in this order. */
  method RecordFour() returns (m: RangeMap, ghost p: nat)
    ensures fresh(m) && m.Valid() && m.next == p + 4 && m.tree ==
      Node(Node(Node(Node(Leaf, p, Range(10, 1, [], 0), Leaf), p + 1, Range(20, 1, [], 0), Leaf),
        p + 2, Range(30, 1, [], 0), Leaf), p + 3, Range(40, 1, [], 0), Leaf)
  {
    hide Spells, Apart, Nodes, Splayed, Meets, Asserts, Contents, Recorded, Hung, RangeMap.Valid;
    var a, b, c, d := Range(10, 1, [], 0), Range(20, 1, [], 0), Range(30, 1, [], 0), Range(40, 1, [], 0);
    m := new RangeMap();
    p := m.next;
    FourInOrder(a, b, c, d, p, p + 1, p + 2, p + 3);
    NothingSplayed(10);
    First(p, a);
    var o, x;
    ghost var i;
    o, x, i := AddRangeFromTask(m, 10, 1, [], 0);
    ghost var t := Node(Leaf, p, a, Leaf);
    Beyond(t, p + 1, b);
    o, x, i := AddRangeFromTask(m, 20, 1, [], 0);
    t := Node(t, p + 1, b, Leaf);
    Beyond(t, p + 2, c);
    o, x, i := AddRangeFromTask(m, 30, 1, [], 0);
    t := Node(t, p + 2, c, Leaf);
    Beyond(t, p + 3, d);
    o, x, i := AddRangeFromTask(m, 40, 1, [], 0);
  }

  /** An input: after these four, the range [12,25) is taken as new, although it holds
      byte 20, which is stored already. */
  method Overlooks() returns (m: RangeMap, o: Outcome)
    ensures m.Valid() && o.Added?
    ensures m.Ranges() == [Range(10, 1, [], 0), Range(12, 13, [], 1), Range(20, 1, [], 0), Range(30, 1, [], 0),
      Range(40, 1, [], 0)]
  {
    hide Spells, Apart, Nodes, Splayed, Meets, Asserts, Contents, Recorded, Hung, RangeMap.Valid;
    var a, b, c, d := Range(10, 1, [], 0), Range(20, 1, [], 0), Range(30, 1, [], 0), Range(40, 1, [], 0);
    ghost var p;
    m, p := RecordFour();
    FourInOrder(a, b, c, d, p, p + 1, p + 2, p + 3);
    Buried(a, b, c, d, p, p + 1, p + 2, p + 3, Range(12, 13, [], 1));
    var x;
    ghost var i;
    o, x, i := AddRangeFromTask(m, 12, 13, [], 1);
    FiveInOrder(a, Range(12, 13, [], 1), b, c, d, p, p + 1, p + 2, p + 3, p + 4);
  }
}
