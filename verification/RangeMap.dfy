/** The range map: a splay tree of address ranges. */
module RangeMaps {
  import opened Ranges
  import opened RangeTree
  import opened Splays
  import opened Coalesce
  import opened Scans
  import opened SetOps

  class RangeMap {
    var nodes: Cells
    var root: nat
    var size: int
    /** First address never handed out for a node. */
    var next: nat
    ghost var tree: Tree

    /** `new_range_set`. */
    constructor ()
      ensures Valid() && Ranges() == [] && tree == Leaf
    {
      nodes, root, size, next := map[], NULL, 0, DUMMY + 1;
      tree := Leaf;
    }

    ghost predicate Valid()
      reads this
    {
      && Spells(nodes, tree) && Apart(tree) && root == Root(tree) && nodes.Keys == Nodes(tree)
      && size == |Contents(tree)|
      && next > DUMMY && forall p :: p in nodes ==> p < next
    }

    ghost function Ranges(): seq<Range>
      reads this
    {
      Contents(tree)
    }

    /** `splay`, on the nodes of tree `g` below `t`. */
    method Splay(t: nat, key: nat, ghost g: Tree) returns (u: nat, ghost h: Tree)
      requires Spells(nodes, g) && Apart(g) && t == Root(g)
      modifies this`nodes
      ensures SameOutside(old(nodes), nodes, Nodes(g))
      ensures Spells(nodes, h) && u == Root(h)
      ensures if g.Leaf? then h == g && nodes == old(nodes) else SplayedTo(g, key, h)
      ensures h == Splayed(g, key)
    {
      hide Spells, Apart, Nodes, Contents, SearchEnd, SplayedTo, SameOutside, Going, Assembled, FillLeft, FillRight,
        SplayedFrom;
      NullIsLeaf(g);
      if t == NULL { SameAsBefore(nodes, Nodes(g)); return t, g; }
      u := t;
      var nlc, nrc, l, r := NULL, NULL, DUMMY, DUMMY;
      ghost var cur, a, b := g, Leaf, Leaf;
      Begin(nodes, g, key);
      while true
        invariant Going(old(nodes), g, key, nodes, u, l, r, nlc, nrc, cur, a, b)
        invariant cur.Node? && SplayedFrom(cur, a, b, key) == Splayed(g, key)
        decreases cur
      {
        SplayedTurns(cur, a, b, key);
        Here(old(nodes), g, key, nodes, u, l, r, nlc, nrc, cur, a, b);
        if key < nodes[u].r.base {
          if nodes[u].lc != NULL && key < nodes[nodes[u].lc].r.base {
            TurnRight(old(nodes), g, key, nodes, u, l, r, nlc, nrc, cur, a, b);
            var y := nodes[u].lc;
            nodes := WithLc(nodes, u, nodes[y].rc);
            nodes := WithRc(nodes, y, u);
            u, cur := y, RotatedRight(cur);
            Here(old(nodes), g, key, nodes, u, l, r, nlc, nrc, cur, a, b);
          }
          if nodes[u].lc == NULL { break; }
          GoLeft(old(nodes), g, key, nodes, u, l, r, nlc, nrc, cur, a, b);
          if r == DUMMY { nlc := u; } else { nodes := WithLc(nodes, r, u); }
          r, u := u, nodes[u].lc;
          cur, b := cur.l, FillLeft(b, Node(Leaf, cur.p, cur.r, cur.rt));
        } else if key > nodes[u].r.base {
          if nodes[u].rc != NULL && key > nodes[nodes[u].rc].r.base {
            TurnLeft(old(nodes), g, key, nodes, u, l, r, nlc, nrc, cur, a, b);
            var y := nodes[u].rc;
            nodes := WithRc(nodes, u, nodes[y].lc);
            nodes := WithLc(nodes, y, u);
            u, cur := y, RotatedLeft(cur);
            Here(old(nodes), g, key, nodes, u, l, r, nlc, nrc, cur, a, b);
          }
          if nodes[u].rc == NULL { break; }
          GoRight(old(nodes), g, key, nodes, u, l, r, nlc, nrc, cur, a, b);
          if l == DUMMY { nrc := u; } else { nodes := WithRc(nodes, l, u); }
          l, u := u, nodes[u].rc;
          cur, a := cur.rt, FillRight(a, Node(cur.l, cur.p, cur.r, Leaf));
        } else {
          break;
        }
      }
      assert Splayed(g, key) == Assembled(cur, a, b);
      Here(old(nodes), g, key, nodes, u, l, r, nlc, nrc, cur, a, b);
      Finish(old(nodes), g, key, nodes, u, l, r, nlc, nrc, cur, a, b);
      h := Assembled(cur, a, b);
      if l == DUMMY { nrc := nodes[u].lc; } else { nodes := WithRc(nodes, l, nodes[u].lc); }
      if r == DUMMY { nlc := nodes[u].rc; } else { nodes := WithLc(nodes, r, nodes[u].rc); }
      nodes := WithLc(nodes, u, nrc);
      nodes := WithRc(nodes, u, nlc);
      assert Root(h) == u by { AssembledRoot(cur, a, b); }
    }
  
    /** `free_subtree`. */
    method FreeSubtree(t: nat, ghost g: Tree)
      requires Spells(nodes, g) && Apart(g) && t == Root(g)
      modifies this`nodes, this`size
      ensures nodes == old(nodes) - Nodes(g)
      ensures size == old(size) - |Contents(g)|
      decreases g
    {
      hide Spells, Apart, Nodes, Contents;
      NullIsLeaf(g);
      NoNodes();
      if t == NULL { return; }
      NodeOf(g.l, g.p, g.r, g.rt);
      SpellsNode(nodes, g.l, g.p, g.r, g.rt);
      NodesIn(nodes, g.rt);
      FreeSubtree(nodes[t].lc, g.l);
      SpellsFrame(old(nodes), nodes, g.rt);
      FreeSubtree(nodes[t].rc, g.rt);
      nodes := nodes[t := nodes[t].(lc := NULL, rc := NULL)];
      nodes := nodes - {t};
      size := size - 1;
    }

    /** `absorb_left`, for the range of node `top`. */
    method AbsorbLeft(node: nat, top: nat, ghost g: Tree) returns (rest: nat, ghost h: Tree)
      requires Spells(nodes, g) && Apart(g) && node == Root(g)
      requires top in nodes && top !in Nodes(g)
      requires Normal(Contents(g)) && Under(Contents(g), nodes[top].r.base)
      modifies this`nodes, this`size
      ensures Spells(nodes, h) && Apart(h) && rest == Root(h)
      ensures Shrunk(old(nodes), nodes, Nodes(g), Nodes(h), top)
      ensures top in nodes && nodes[top] == old(nodes)[top].(r := GrownLeft(Contents(g), old(nodes)[top].r))
      ensures Contents(h) == KeptLeft(Contents(g), old(nodes)[top].r) && h == AbsorbedLeft(g, old(nodes)[top].r.base)
      ensures size == old(size) - |Contents(g)| + |Contents(h)|
      decreases g
    {
      hide Spells, Apart, Nodes, Contents, Normal, Under, KeptLeft, GrownLeft, KeptRight, GrownRight;
      ghost var u := nodes[top].r;
      NullIsLeaf(g);
      NoNodes();
      NothingNear(u);
      if node == NULL { return NULL, g; }
      NodeOf(g.l, g.p, g.r, g.rt);
      SpellsNode(nodes, g.l, g.p, g.r, g.rt);
      NodesIn(nodes, g.l);
      NormalHalves(Contents(g.l), g.r, Contents(g.rt));
      UnderParts(Contents(g.l), g.r, Contents(g.rt), u.base);
      if nodes[top].r.base > nodes[node].r.End() {
        LeftPast(Contents(g.l), g.r, Contents(g.rt), u);
        ghost var x;
        var rc;
        rc, x := AbsorbLeft(nodes[node].rc, top, g.rt);
        RightShrunk(old(nodes), nodes, g, x, top);
        nodes := WithRc(nodes, node, rc);
        rest, h := node, Node(g.l, g.p, g.r, x);
        NodeOf(g.l, g.p, g.r, x);
      } else {
        LeftTakes(Contents(g.l), g.r, Contents(g.rt), u);
        ghost var u' := u.(base := g.r.base, size := u.End() - g.r.base);
        var base := Min(nodes[node].r.base, nodes[top].r.base);
        var oldbase := nodes[top].r.base;
        nodes := nodes[top := nodes[top].(r := nodes[top].r.(base := base,
          size := oldbase + nodes[top].r.size - base))];
        assert nodes[top].r == u';
        var ret := nodes[node].lc;
        nodes := WithLc(nodes, node, NULL);
        ghost var dead := Node(Leaf, g.p, g.r, g.rt);
        NodeOf(Leaf, g.p, g.r, g.rt);
        RightHalfFreed(old(nodes), g, top, u');
        FreeSubtree(node, dead);
        rest, h := AbsorbLeft(ret, top, g.l);
      }
    }

    /** `absorb_right`, for the range of node `top`. */
    method AbsorbRight(node: nat, top: nat, ghost g: Tree) returns (rest: nat, ghost h: Tree)
      requires Spells(nodes, g) && Apart(g) && node == Root(g)
      requires top in nodes && top !in Nodes(g)
      requires Normal(Contents(g)) && Over(Contents(g), nodes[top].r.base)
      modifies this`nodes, this`size
      ensures Spells(nodes, h) && Apart(h) && rest == Root(h)
      ensures Shrunk(old(nodes), nodes, Nodes(g), Nodes(h), top)
      ensures top in nodes && nodes[top] == old(nodes)[top].(r := GrownRight(Contents(g), old(nodes)[top].r))
      ensures Contents(h) == KeptRight(Contents(g), old(nodes)[top].r) && h == AbsorbedRight(g, old(nodes)[top].r.End())
      ensures size == old(size) - |Contents(g)| + |Contents(h)|
      decreases g
    {
      hide Spells, Apart, Nodes, Contents, Normal, Over, KeptLeft, GrownLeft, KeptRight, GrownRight;
      ghost var u := nodes[top].r;
      NullIsLeaf(g);
      NoNodes();
      NothingNear(u);
      if node == NULL { return NULL, g; }
      NodeOf(g.l, g.p, g.r, g.rt);
      SpellsNode(nodes, g.l, g.p, g.r, g.rt);
      NodesIn(nodes, g.rt);
      NormalHalves(Contents(g.l), g.r, Contents(g.rt));
      OverParts(Contents(g.l), g.r, Contents(g.rt), u.base);
      if nodes[top].r.End() < nodes[node].r.base {
        RightPast(Contents(g.l), g.r, Contents(g.rt), u);
        ghost var x;
        var lc;
        lc, x := AbsorbRight(nodes[node].lc, top, g.l);
        LeftShrunk(old(nodes), nodes, g, x, top);
        nodes := WithLc(nodes, node, lc);
        rest, h := node, Node(x, g.p, g.r, g.rt);
        NodeOf(x, g.p, g.r, g.rt);
      } else {
        RightTakes(Contents(g.l), g.r, Contents(g.rt), u);
        var rb := Max(nodes[top].r.End(), nodes[node].r.End());
        nodes := nodes[top := nodes[top].(r := nodes[top].r.(size := rb - nodes[top].r.base))];
        var ret := nodes[node].rc;
        nodes := WithRc(nodes, node, NULL);
        ghost var dead := Node(g.l, g.p, g.r, Leaf);
        NodeOf(g.l, g.p, g.r, Leaf);
        LeftHalfFreed(old(nodes), g, top, nodes[top].r);
        FreeSubtree(node, dead);
        rest, h := AbsorbRight(ret, top, g.rt);
      }
    }
  
    /** Splayed tree `h`, and a new node `n` to be added to it. */
    ghost predicate Adding(h: Tree, n: nat)
      reads this
    {
      && h.Node? && AllOf(nodes, h, {n}) && size == |Contents(h)|
      && n in nodes && n > DUMMY
      && next > DUMMY && (forall p :: p in nodes ==> p < next)
      && CanAdd(Contents(h), |Contents(h.l)|, nodes[n].r)
    }

    /** `map_add_range` where the splayed root touches the new range: it is
        expanded, and the new node freed. */
    method ExpandRoot(top: nat, n: nat, ghost h: Tree)
      requires Adding(h, n) && top == h.p && Touching(nodes[n].r, h.r)
      modifies this`nodes, this`size, this`root, this`tree
      ensures Valid() && tree.Node?
      ensures Ranges() == Added(Contents(h), |Contents(h.l)|, old(nodes)[n].r)
      ensures root == top && tree.r.Holds(old(nodes)[n].r.base) && tree == ExpandedTree(h, old(nodes)[n].r)
    {
      hide Spells, Apart, Nodes, Contents, Normal, Under, Over, KeptLeft, GrownLeft, KeptRight, GrownRight;
      hide CanAdd, Added, Touching, Joined, AllOf, Shrunk, AbsorbedLeft, AbsorbedRight;
      ghost var lo, hi, nr := Contents(h.l), Contents(h.rt), nodes[n].r;
      NodeOf(h.l, h.p, h.r, h.rt);
      RootChildren(nodes, h, {n});
      RootGrows(lo, h.r, hi, nr);
      RootRange(nodes, h, Joined(nr, h.r), {n});
      nodes := nodes[top := nodes[top].(r := Joined(nodes[n].r, nodes[top].r))];
      ghost var m := nodes;
      var lc, rc;
      ghost var x, y;
      lc, x := AbsorbLeft(nodes[top].lc, top, h.l);
      RootedLeft(m, nodes, h.l, top, h.rt, x, {n});
      nodes := WithLc(nodes, top, lc);
      m := nodes;
      RootChildren(m, Node(x, top, m[top].r, h.rt), {n});
      rc, y := AbsorbRight(nodes[top].rc, top, h.rt);
      RootedRight(m, nodes, x, top, h.rt, y, {n});
      nodes := WithRc(nodes, top, rc);
      root := top;
      tree := Node(x, top, nodes[top].r, y);
      DropExtra(nodes, tree, n);
      nodes := nodes - {n};
    }

    /** `map_add_range` where the new range lies before the splayed root. */
    method InsertBefore(top: nat, n: nat, ghost h: Tree)
      requires Adding(h, n) && top == h.p && !Touching(nodes[n].r, h.r) && nodes[n].r.base < h.r.base
      modifies this`nodes, this`size, this`root, this`tree
      ensures Valid() && tree.Node?
      ensures Ranges() == Added(Contents(h), |Contents(h.l)|, old(nodes)[n].r)
      ensures root == n && tree.r.Holds(old(nodes)[n].r.base) && tree == RootedTree(h, n, old(nodes)[n].r)
    {
      hide Spells, Apart, Nodes, Contents, Normal, Under, Over, KeptLeft, GrownLeft, KeptRight, GrownRight;
      hide CanAdd, Added, Touching, Joined, AllOf, Shrunk, AbsorbedLeft, AbsorbedRight;
      ghost var lo, hi, nr := Contents(h.l), Contents(h.rt), nodes[n].r;
      NoNodes();
      NodeOf(h.l, h.p, h.r, h.rt);
      NodeOf(Leaf, h.p, h.r, h.rt);
      RootBefore(lo, h.r, hi, nr);
      HangBefore(nodes, h, n);
      nodes := WithLc(nodes, n, nodes[top].lc);
      nodes := WithRc(nodes, n, top);
      nodes := WithLc(nodes, top, NULL);
      size := size + 1;
      ghost var right, m := Node(Leaf, top, h.r, h.rt), nodes;
      RootChildren(m, Node(h.l, n, nr, right), {});
      var lc;
      ghost var x;
      lc, x := AbsorbLeft(nodes[n].lc, n, h.l);
      RootedLeft(m, nodes, h.l, n, right, x, {});
      nodes := WithLc(nodes, n, lc);
      root := n;
      tree := Node(x, n, nodes[n].r, right);
      AllOfValid(nodes, tree);
    }

    /** `map_add_range` where the new range lies after the splayed root. */
    method InsertAfter(top: nat, n: nat, ghost h: Tree)
      requires Adding(h, n) && top == h.p && !Touching(nodes[n].r, h.r) && nodes[n].r.base >= h.r.base
      modifies this`nodes, this`size, this`root, this`tree
      ensures Valid() && tree.Node?
      ensures Ranges() == Added(Contents(h), |Contents(h.l)|, old(nodes)[n].r)
      ensures root == n && tree.r.Holds(old(nodes)[n].r.base) && tree == RootedTree(h, n, old(nodes)[n].r)
    {
      hide Spells, Apart, Nodes, Contents, Normal, Under, Over, KeptLeft, GrownLeft, KeptRight, GrownRight;
      hide CanAdd, Added, Touching, Joined, AllOf, Shrunk, AbsorbedLeft, AbsorbedRight;
      ghost var lo, hi, nr := Contents(h.l), Contents(h.rt), nodes[n].r;
      NoNodes();
      NodeOf(h.l, h.p, h.r, h.rt);
      NodeOf(h.l, h.p, h.r, Leaf);
      RootAfter(lo, h.r, hi, nr);
      HangAfter(nodes, h, n);
      nodes := WithRc(nodes, n, nodes[top].rc);
      nodes := WithLc(nodes, n, top);
      nodes := WithRc(nodes, top, NULL);
      size := size + 1;
      ghost var left, m := Node(h.l, top, h.r, Leaf), nodes;
      RootChildren(m, Node(left, n, nr, h.rt), {});
      var rc;
      ghost var y;
      rc, y := AbsorbRight(nodes[n].rc, n, h.rt);
      RootedRight(m, nodes, left, n, h.rt, y, {});
      nodes := WithRc(nodes, n, rc);
      root := n;
      tree := Node(left, n, nodes[n].r, y);
      AllOfValid(nodes, tree);
    }

    /** `map_add_range`. */
    method AddRange(base: nat, bytes: nat, obj: Data) returns (n: nat)
      requires Valid() && Normal(Ranges()) && bytes > 0
      modifies this
      ensures Valid() && Normal(Ranges())
      ensures tree.Node? && n == root && tree.r.Holds(base)
      ensures var r := Range(base, bytes, obj, 0); var k := SearchIndex(old(tree), base);
        if old(tree).Leaf? then Ranges() == [r]
        else CanAdd(old(Ranges()), k, r) && Ranges() == Added(old(Ranges()), k, r)
      ensures tree == AddedTree(old(tree), old(next), Range(base, bytes, obj, 0)) && next == old(next) + 1
      ensures EndsUnder(old(Ranges()), base) ==> Ranges() == old(Ranges()) + [Range(base, bytes, obj, 0)]
    {
      hide Spells, Apart, Nodes, Contents, Under, Over, KeptLeft, GrownLeft, KeptRight, GrownRight, Normal;
      hide Added, SplayedTo, SearchIndex, EndsUnder, Splayed, ExpandedTree, RootedTree;
      ghost var g, rs := tree, Contents(tree);
      ghost var r := Range(base, bytes, obj, 0);
      NullIsLeaf(g);
      NoNodes();
      NodesIn(nodes, g);
      n := next;
      next := next + 1;
      nodes := nodes[n := Cell(NULL, NULL, Range(base, bytes, obj, 0))];
      SpellsFrame(old(nodes), nodes, g);
      if root == NULL {
        root := n;
        size := 1;
        tree := Node(Leaf, n, r, Leaf);
        NodeOf(Leaf, n, r, Leaf);
        SpellsNode(nodes, Leaf, n, r, Leaf);
        OneNormal(r);
        assert Contents(tree) == [r];
        return;
      }
      var top;
      ghost var h;
      top, h := Splay(root, base, g);
      NormalSorted(rs);
      SplayedFacts(g, base, h);
      RootPlace(g, base, h);
      SpellsNode(nodes, h.l, h.p, h.r, h.rt);
      AddedNormal(rs, SearchIndex(g, base), r);
      if EndsUnder(rs, base) { AddedLast(rs, SearchIndex(g, base), r); }
      if Touching(nodes[n].r, nodes[top].r) {
        ExpandRoot(top, n, h);
      } else if base < nodes[top].r.base {
        InsertBefore(top, n, h);
      } else {
        InsertAfter(top, n, h);
      }
      n := root;
    }
  
    // ----- reading -----

    /** `map_contains`: the node of the range that holds `addr`, NULL if none. */
    method Contains(addr: nat) returns (p: nat)
      requires Valid() && Disjoint(Ranges())
      modifies this`nodes, this`root, this`tree
      ensures Valid() && Ranges() == old(Ranges())
      ensures p != NULL <==> Covers(Ranges(), addr)
      ensures p != NULL ==> p in nodes && nodes[p].r in Ranges() && nodes[p].r.Holds(addr)
    {
      hide Spells, Apart, Nodes, Contents, Under, Over, Disjoint, Covers, SplayedTo, SearchIndex, Sorted, SearchEnd,
        SameOutside;
      ghost var g := tree;
      NullIsLeaf(g);
      NoNodes();
      CoversNone(addr);
      if root == NULL { return NULL; }
      DisjointSorted(Contents(g));
      var top;
      ghost var h;
      top, h := Splay(root, addr, g);
      SplayedFacts(g, addr, h);
      RootPlace(g, addr, h);
      root, tree := top, h;
      SplayKeys(old(nodes), nodes, g);
      assert Valid();
      SpellsNode(nodes, h.l, h.p, h.r, h.rt);
      NodeOf(h.l, h.p, h.r, h.rt);
      NullIsLeaf(h.l);
      SplayedSides(g, addr, h);
      RootOrLeft(Contents(h.l), h.r, Contents(h.rt), addr);
      assert h.r in Contents(h);
      if addr < nodes[top].r.base {
        if nodes[top].lc == NULL { return NULL; }
        var node := nodes[top].lc;
        ghost var c := h.l;
        RightmostStep(nodes, c);
        while nodes[node].rc != NULL
          invariant Valid() && tree == h
          invariant c.Node? && Spells(nodes, c) && Apart(c) && node == c.p && node in nodes
          invariant |Contents(c)| > 0 && |Contents(h.l)| > 0
          invariant Contents(c)[|Contents(c)| - 1] == Contents(h.l)[|Contents(h.l)| - 1]
          decreases c
        {
          RightmostStep(nodes, c);
          node, c := nodes[node].rc, c.rt;
        }
        RightmostStep(nodes, c);
        assert nodes[node].r == Contents(h.l)[|Contents(h.l)| - 1];
        assert nodes[node].r == Contents(h)[|Contents(h.l)| - 1];
        assert nodes[node].r.base <= addr;
        return if nodes[node].r.End() > addr then node else NULL;
      }
      return if nodes[top].r.End() > addr then top else NULL;
    }

    /** `subtree_overlaps`, on the nodes of tree `g` below `n`. */
    method SubtreeOverlaps(n: nat, q: Range, ghost g: Tree) returns (found: bool, base: nat, bytes: nat)
      requires Spells(nodes, g) && Apart(g) && n == Root(g) && Disjoint(Contents(g))
      ensures found <==> Scan(Contents(g), q) < |Contents(g)|
      ensures found ==> var r := Contents(g)[Scan(Contents(g), q)]; Hits(r, q) && Cut(r, q) == Range(base, bytes, [], 0)
      decreases g
    {
      hide Spells, Apart, Nodes, Contents, Disjoint, Scan;
      NullIsLeaf(g);
      NoNodes();
      if n == NULL { ScanEmpty(q); return false, 0, 0; }
      SpellsNode(nodes, g.l, g.p, g.r, g.rt);
      NodeOf(g.l, g.p, g.r, g.rt);
      ghost var l, r, rt := Contents(g.l), g.r, Contents(g.rt);
      DisjointParts(l, r, rt);
      ScanIs(l, q);
      if nodes[n].r.End() <= q.base {
        SearchesRight(l, r, rt, q);
        found, base, bytes := SubtreeOverlaps(nodes[n].rc, q, g.rt);
        return;
      }
      if nodes[n].r.base > q.End() {
        SearchesLeft(l, r, rt, q);
        found, base, bytes := SubtreeOverlaps(nodes[n].lc, q, g.l);
        return;
      }
      if nodes[n].r.base > q.base {
        var head := Range(q.base, nodes[n].r.base - q.base, [], 0);
        SearchesHead(l, r, rt, q);
        ScanAlike(l, head, q);
        found, base, bytes := SubtreeOverlaps(nodes[n].lc, head, g.l);
        if found {
          assert Contents(g) == l + ([r] + rt);
          ScanStops(l, [r] + rt, q);
          return;
        }
      }
      SearchesHere(l, r, rt, q);
      found := Hits(nodes[n].r, q);
      if found {
        base, bytes := Cut(nodes[n].r, q).base, Cut(nodes[n].r, q).size;
      }
    }

    /** `map_overlaps`: the query's overlap with the lowest range that has one. */
    method Overlaps(q: Range) returns (found: bool, c: Range)
      requires Valid() && Disjoint(Ranges())
      ensures found <==> Scan(Ranges(), q) < |Ranges()|
      ensures found ==> Hits(Ranges()[Scan(Ranges(), q)], q) && c == Cut(Ranges()[Scan(Ranges(), q)], q)
    {
      var base, bytes;
      found, base, bytes := SubtreeOverlaps(root, q, tree);
      c := Range(base, bytes, [], 0);
    }

    /** `subtree_inject` with `to_array_block`. */
    method Inject(n: nat, seen: seq<Range>, ghost g: Tree) returns (ranges: seq<Range>)
      requires Spells(nodes, g) && Apart(g) && n == Root(g)
      ensures ranges == seen + Contents(g)
      decreases g
    {
      hide Spells, Apart, Nodes, Contents;
      NullIsLeaf(g);
      NoNodes();
      if n == NULL { return seen; }
      SpellsNode(nodes, g.l, g.p, g.r, g.rt);
      NodeOf(g.l, g.p, g.r, g.rt);
      ranges := Inject(nodes[n].lc, seen, g.l);
      ranges := ranges + [nodes[n].r];
      ranges := Inject(nodes[n].rc, ranges, g.rt);
    }

    /** `map_to_array`. */
    method ToArray() returns (ranges: seq<Range>)
      requires Valid()
      ensures ranges == Ranges()
    {
      if size == 0 { return []; }
      ranges := Inject(root, [], tree);
    }

    // ----- removing -----

    /** `map_remove_node`: exactly the node at this base goes. */
    method RemoveNode(base: nat) returns (ghost k: nat)
      requires Valid() && Sorted(Ranges())
      requires exists i :: 0 <= i < |Ranges()| && Ranges()[i].base == base
      modifies this
      ensures Valid()
      ensures k < |old(Ranges())| && old(Ranges())[k].base == base
      ensures Ranges() == old(Ranges())[..k] + old(Ranges())[k + 1..]
    {
      hide Spells, Apart, Nodes, Contents, Under, Over, Sorted, SplayedTo, SearchIndex, SearchEnd, SameOutside;
      ghost var g := tree;
      NullIsLeaf(g);
      NoNodes();
      var rt;
      ghost var h;
      rt, h := Splay(root, base, g);
      RemovalStart(old(nodes), nodes, g, base, h);
      k := |Contents(h.l)|;
      assert nodes[rt].r.base == base;
      var x;
      ghost var t;
      if nodes[rt].lc == NULL {
        x, t := nodes[rt].rc, h.rt;
      } else {
        ghost var m := nodes;
        ghost var y;
        x, y := Splay(nodes[rt].lc, base, h.l);
        LeftUnhooked(m, h, base, nodes, y);
        nodes := WithRc(nodes, x, nodes[rt].rc);
        t := Node(y.l, y.p, y.r, h.rt);
      }
      root := x;
      size := size - 1;
      FreeRoot(nodes, t, rt);
      nodes := WithRc(WithLc(nodes, rt, NULL), rt, NULL);
      nodes := nodes - {rt};
      tree := t;
    }

    /** `map_clear`. */
    method Clear()
      requires Valid()
      modifies this
      ensures Valid() && Ranges() == [] && root == NULL
    {
      NodesIn(nodes, tree);
      FreeSubtree(root, tree);
      root, size := NULL, 0;
      tree := Leaf;
    }
  
    // ----- set operations -----

    /** The second half of `map_intersect`: the parts of `ranges` inside `ref`. */
    method AddWithin(ranges: seq<Range>, ref: RangeMap)
      requires Valid() && Ranges() == [] && Normal(ranges)
      requires ref.Valid() && Normal(ref.Ranges()) && ref != this
      modifies this
      ensures Valid() && Normal(Ranges())
      ensures Kept(ranges, Ranges(), BytesOf(ref.Ranges()))
    {
      hide Spells, Apart, Nodes, Contents, Normal, Covers, Pieces, EndsUnder, Scan, Added, CanAdd, Keeping, Kept, Clean;
      hide SearchIndex, Disjoint, Sorted, AddedTree, Hits, Cut;
      ghost var bytes := ref.Ranges();
      NormalSorted(bytes);
      ghost var keep := BytesOf(bytes);
      KeptNone(keep, ranges);
      for i := 0 to |ranges|
        invariant Valid() && Normal(Ranges()) && ref.Valid() && ref.Ranges() == bytes && ref != this
        invariant Kept(ranges[..i], Ranges(), keep)
      {
        var range := ranges[i];
        ghost var r := range;
        assert ranges[..i + 1] == ranges[..i] + [r];
        TakeNormal(ranges, i + 1);
        KeepStart(ranges[..i], r, Ranges(), keep);
        assert Clean(Ranges(), range.base, keep) by { CleanStart(Ranges(), range.base, keep); }
        var more := true;
        while more
          invariant Valid() && Normal(Ranges()) && ref.Valid() && ref.Ranges() == bytes && ref != this
          invariant range.End() == r.End() && range.base >= r.base && range.rec == r.rec
          invariant more ==> range.size > 0 && Clean(Ranges(), range.base, keep)
          invariant Keeping(ranges[..i], r, if more then range.base else r.End(), Ranges(), keep)
          decreases range.size, more
        {
          ScanKeeps(bytes, range, keep);
          var found, o := ref.Overlaps(range);
          if found {
            OverlapKept(ranges[..i], r, range.base, Ranges(), keep, o);
            var _ := AddRange(o.base, o.size, range.rec);
            var bound := range.base + range.size;
            range := range.(base := o.base + o.size, size := bound - (o.base + o.size));
          } else {
            KeepNothing(ranges[..i], r, range.base, Ranges(), keep, r.End());
          }
          more := found && range.size != 0;
        }
        KeepDone(ranges[..i], r, Ranges(), keep);
      }
      assert ranges[..|ranges|] == ranges;
    }

    /** `map_intersect`: exactly the bytes in both maps; a map intersected with
        itself is cleared first, and stays empty. */
    method Intersect(ref: RangeMap?)
      requires Valid() && Normal(Ranges())
      requires ref != null ==> ref.Valid() && Normal(ref.Ranges())
      modifies this
      ensures Valid() && Normal(Ranges())
      ensures forall x: nat :: Covers(Ranges(), x) <==>
        Covers(old(Ranges()), x) && ref != null && ref != this && Covers(ref.Ranges(), x)
      ensures Pieces(Ranges(), old(Ranges()))
    {
      hide Spells, Apart, Nodes, Contents, Normal, Covers, Pieces, EndsUnder, Scan, Added, CanAdd, Keeping, Kept, Clean;
      hide SearchIndex, Disjoint, Sorted;
      ghost var rs := Ranges();
      KeptNone((x: nat) => false, rs);
      NullIsLeaf(tree);
      NoNodes();
      forall x: nat ensures !Covers([], x) { CoversNone(x); }
      if root == NULL { return; }
      var ranges := ToArray();
      Clear();
      if ref == null { return; }
      NullIsLeaf(ref.tree);
      if ref.root == NULL { return; }
      ghost var bytes := ref.Ranges();
      AddWithin(ranges, ref);
      KeptMeans(rs, Ranges(), BytesOf(bytes));
    }
  
    /** `map_union`: nothing of `ref` is missing and nothing else appears. Nothing is
        lost exactly when no range of `ref`, as they are added, meets the lossy case;
        a range that meets it lies strictly inside what was there. Into an empty map
        it copies every range. */
    method Union(ref: RangeMap?)
      requires Valid() && Normal(Ranges())
      requires ref != null ==> ref.Valid() && Normal(ref.Ranges())
      modifies this
      ensures Valid() && Normal(Ranges())
      ensures ref == null ==> Ranges() == old(Ranges())
      ensures ref != null ==> forall x: nat ::
        (Covers(old(ref.Ranges()), x) ==> Covers(Ranges(), x))
        && (Covers(Ranges(), x) ==> Covers(old(Ranges()), x) || Covers(old(ref.Ranges()), x))
      ensures ref != null ==>
        ((forall x: nat :: Covers(old(Ranges()), x) ==> Covers(Ranges(), x))
          <==> NoneLossy(old(tree), old(next), old(ref.Ranges())))
      ensures ref != null && NoneInside(old(Ranges()), old(ref.Ranges())) ==>
        NoneLossy(old(tree), old(next), old(ref.Ranges()))
      ensures ref != null && old(Ranges()) == [] ==> Ranges() == Copied(old(ref.Ranges()))
      ensures ref != null ==> tree == AddedTrees(old(tree), old(next), old(ref.Ranges()))
    {
      hide Spells, Apart, Nodes, Contents, Normal, Covers, EndsUnder, Added, CanAdd, Uniting, SearchIndex, Inside,
        Disjoint, Sorted;
      hide Fate, LossyAdd, NoneLossy, AddedTree, AddedTrees;
      if ref == null { return; }
      ghost var rs, qs, t, n0 := Ranges(), ref.Ranges(), tree, next;
      NoNodes();
      NullIsLeaf(ref.tree);
      UniteNone(rs);
      FateStart(rs, qs);
      NoneAdded(t, n0);
      assert qs[..0] == [];
      if ref.root == NULL {
        UniteMeans(rs, [], rs);
        FateMeans(rs, qs, rs, true);
        assert rs == [] ==> rs == Copied(qs);
        return;
      }
      var ranges := ref.ToArray();
      for i := 0 to |ranges|
        invariant Valid() && Normal(Ranges())
        invariant Uniting(rs, qs[..i], Ranges())
        invariant tree == AddedTrees(t, n0, qs[..i]) && next == n0 + i
        invariant Fate(rs, qs, Ranges(), NoneLossy(t, n0, qs[..i]))
        invariant NoneInside(rs, qs) ==> NoneLossy(t, n0, qs[..i])
        invariant rs == [] ==> Ranges() == Copied(qs[..i])
      {
        var range := ranges[i];
        ghost var n, out, g := range, Ranges(), tree;
        assert qs[..i + 1] == qs[..i] + [n];
        TakeNormal(qs, i + 1);
        TakeNormal(qs, |qs|);
        CopiedNext(qs, i);
        NullIsLeaf(g);
        NextAdded(t, n0, qs, i);
        var _ := AddRange(range.base, range.size, range.rec);
        ghost var m := Range(n.base, n.size, n.rec, 0);
        LossyAddIs(g, n, m);
        if g.Leaf? {
          FirstUnited(rs, qs[..i], n, m);
          FateFirst(rs, qs, i, m, NoneLossy(t, n0, qs[..i]));
        } else {
          UniteStep(rs, qs[..i], n, out, SearchIndex(g, n.base), m);
          FateStep(rs, qs, i, out, SearchIndex(g, n.base), m, NoneLossy(t, n0, qs[..i]));
        }
      }
      assert qs[..|qs|] == qs;
      UniteMeans(rs, qs, Ranges());
      FateMeans(rs, qs, Ranges(), NoneLossy(t, n0, qs));
    }

    /** `map_clone`. */
    static method Clone(source: RangeMap) returns (clone: RangeMap)
      requires source.Valid() && Normal(source.Ranges())
      ensures fresh(clone) && clone.Valid() && Normal(clone.Ranges()) && clone.Ranges() == Copied(source.Ranges())
    {
      clone := new RangeMap();
      clone.Union(source);
    }

    /** The second half of `map_subtract`: the parts of `ranges` outside `copy`. */
    method AddOutside(ranges: seq<Range>, copy: RangeMap)
      requires Valid() && Ranges() == [] && Normal(ranges)
      requires copy.Valid() && Normal(copy.Ranges()) && copy != this
      modifies this
      ensures Valid() && Normal(Ranges())
      ensures Kept(ranges, Ranges(), Outside(copy.Ranges()))
    {
      hide Spells, Apart, Nodes, Contents, Normal, Covers, Pieces, EndsUnder, Scan, Added, CanAdd, Keeping, Kept;
      hide SearchIndex, Disjoint, Sorted, AllKept, KeptUpTo, Hits, Cut, AddedTree;
      ghost var cut := copy.Ranges();
      NormalSorted(cut);
      ghost var keep := Outside(cut);
      KeptNone(keep, ranges);
      for i := 0 to |ranges|
        invariant Valid() && Normal(Ranges()) && copy.Valid() && copy.Ranges() == cut && copy != this
        invariant Kept(ranges[..i], Ranges(), keep)
      {
        var range := ranges[i];
        ghost var r := range;
        assert ranges[..i + 1] == ranges[..i] + [r];
        TakeNormal(ranges, i + 1);
        KeepStart(ranges[..i], r, Ranges(), keep);
        var more := true;
        while more
          invariant Valid() && Normal(Ranges()) && copy.Valid() && copy.Ranges() == cut && copy != this
          invariant range.End() == r.End() && range.base >= r.base && range.rec == r.rec
          invariant more ==> range.size > 0
          invariant EndsUnder(Ranges(), range.base)
          invariant Keeping(ranges[..i], r, range.base, Ranges(), keep)
          invariant !more && range.size != 0 ==> AllKept(keep, range.base, range.End())
          decreases range.size, more
        {
          ScanSpares(cut, range, keep);
          var found, o := copy.Overlaps(range);
          if found {
            SpareStep(ranges[..i], r, range.base, Ranges(), keep, o.base, o.End());
            if o.base > range.base {
              var _ := AddRange(range.base, o.base - range.base, range.rec);
            }
            var bound := range.base + range.size;
            range := range.(base := o.base + o.size, size := bound - (o.base + o.size));
          }
          more := found && range.size != 0;
        }
        if range.size != 0 {
          SpareRest(ranges[..i], r, range.base, Ranges(), keep);
          var _ := AddRange(range.base, range.size, range.rec);
        }
        KeepDone(ranges[..i], r, Ranges(), keep);
      }
      assert ranges[..|ranges|] == ranges;
    }

    /** `map_subtract`: exactly the bytes of this map that are not in `ref`. */
    method Subtract(ref: RangeMap?)
      requires Valid() && Normal(Ranges())
      requires ref != null ==> ref.Valid() && Normal(ref.Ranges())
      modifies this
      ensures Valid() && Normal(Ranges())
      ensures forall x: nat :: Covers(Ranges(), x) <==>
        Covers(old(Ranges()), x) && !(ref != null && Covers(old(ref.Ranges()), x))
      ensures Pieces(Ranges(), old(Ranges()))
    {
      hide Spells, Apart, Nodes, Contents, Normal, Covers, Pieces, EndsUnder, Scan, Added, CanAdd, Keeping, Kept;
      hide SearchIndex, Disjoint, Sorted, Copied, NoneInside, Inside, AllKept, KeptUpTo, Hits, Cut;
      ghost var rs := Ranges();
      PiecesSelf(rs);
      forall x: nat ensures !Covers([], x) { CoversNone(x); }
      NoNodes();
      NullIsLeaf(tree);
      KeptNone((x: nat) => false, rs);
      if ref == null { return; }
      NullIsLeaf(ref.tree);
      if ref.root == NULL { return; }
      if root == NULL { return; }
      ghost var taken := ref.Ranges();
      var copy := new RangeMap();
      copy.Union(this);
      copy.Intersect(ref);
      ghost var cut := copy.Ranges();
      NormalSorted(cut);
      ghost var keep := Outside(cut);
      var ranges := ToArray();
      Clear();
      AddOutside(ranges, copy);
      SubtractMeans(rs, Copied(rs), taken, cut, Ranges(), keep);
    }
  
    /** The lossy case arises: after adding [20,25), [0,10) and [3,5), bytes 5
        to 9 are gone. */
    static method LosesTail() returns (m: RangeMap)
      ensures m.Valid() && m.Ranges() == [Range(0, 5, [], 0), Range(20, 5, [], 0)]
    {
      hide Spells, Apart, Nodes, Contents, Normal, Covers, EndsUnder, SearchIndex, Added, CanAdd;
      var a, b, c := Range(20, 5, [], 0), Range(0, 10, [], 0), Range(3, 2, [], 0);
      m := new RangeMap();
      KeptNone((x: nat) => false, []);
      ContentsEmpty(m.tree);
      var _ := m.AddRange(20, 5, []);
      ContentsEmpty(m.tree);
      OnlyNode(m.tree, a, 0);
      SecondAdded(a, b);
      var _ := m.AddRange(0, 10, []);
      LeftRoot(m.tree, b, a, 3);
      ThirdAdded(b, a, c);
      var _ := m.AddRange(3, 2, []);
    }
  }

  lemma OnlyNode(t: Tree, a: Range, key: nat)
    requires Contents(t) == [a] && key < a.base
    ensures SearchIndex(t, key) == 0
  {
    hide Nodes;
    NodeOf(t.l, t.p, t.r, t.rt);
    assert |Contents(t.l)| + |Contents(t.rt)| == 0;
    ContentsEmpty(t.l);
    ContentsEmpty(t.rt);
  }

  lemma LeftRoot(t: Tree, a: Range, b: Range, key: nat)
    requires Contents(t) == [a, b] && t.Node? && a.base < key < b.base && t.r.Holds(a.base) && b.base > a.base
    ensures SearchIndex(t, key) == 1
  {
    NodeOf(t.l, t.p, t.r, t.rt);
    ContentsEmpty(t.l);
    ContentsEmpty(t.rt);
    assert t.r == Contents(t)[|Contents(t.l)|];
    assert t.r == a && Contents(t.l) == [];
    assert Contents(t)[1..] == Contents(t.rt);
    OnlyNode(t.rt, b, key);
  }

  lemma SecondAdded(a: Range, b: Range)
    requires a == Range(20, 5, [], 0) && b == Range(0, 10, [], 0)
    ensures Added([a], 0, b) == [b, a]
  {
    assert [a][0..] == [a] && [a][..0] == [];
  }

  lemma ThirdAdded(b: Range, a: Range, c: Range)
    requires a == Range(20, 5, [], 0) && b == Range(0, 10, [], 0) && c == Range(3, 2, [], 0)
    ensures Added([b, a], 1, c) == [Range(0, 5, [], 0), a]
  {
    assert [b, a][..1] == [b] && [b, a][1..] == [a] && [b][..0] == [];
  }
}
