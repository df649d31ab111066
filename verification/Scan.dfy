/** Finding overlaps in an ordered list of ranges, and adding in ascending order. */
module Scans {
  import opened Ranges
  import opened RangeTree
  import opened Splays
  import opened Coalesce

  // ----- a linear scan -----

  /** Index of the lowest range that overlaps the query; the length if none. */
  function Scan(rs: seq<Range>, q: Range): (k: nat)
    ensures k <= |rs|
  {
    if rs == [] || Hits(rs[0], q) then 0 else 1 + Scan(rs[1..], q)
  }

  /** No range overlaps the query. */
  ghost predicate Clear(rs: seq<Range>, q: Range) { forall i :: 0 <= i < |rs| ==> !Hits(rs[i], q) }

  lemma {:induction false} ScanSkips(a: seq<Range>, b: seq<Range>, q: Range)
    requires Clear(a, q)
    ensures Scan(a + b, q) == |a| + Scan(b, q)
  {
    if a == [] {
      assert a + b == b;
    } else {
      assert (a + b)[1..] == a[1..] + b;
      ScanSkips(a[1..], b, q);
    }
  }

  lemma {:induction false} ScanStops(a: seq<Range>, b: seq<Range>, q: Range)
    requires Scan(a, q) < |a|
    ensures Scan(a + b, q) == Scan(a, q)
  {
    assert (a + b)[0] == a[0];
    if !Hits(a[0], q) {
      assert (a + b)[1..] == a[1..] + b;
      ScanStops(a[1..], b, q);
    }
  }

  lemma {:induction false} ScanIs(rs: seq<Range>, q: Range)
    ensures Clear(rs[..Scan(rs, q)], q)
    ensures Scan(rs, q) < |rs| ==> Hits(rs[Scan(rs, q)], q)
  {
    if rs != [] && !Hits(rs[0], q) {
      ScanIs(rs[1..], q);
      assert rs[..Scan(rs, q)] == [rs[0]] + rs[1..][..Scan(rs[1..], q)];
    }
  }

  /** Two queries that every range answers alike. */
  ghost predicate Alike(rs: seq<Range>, p: Range, q: Range) {
    forall i :: 0 <= i < |rs| ==>
      (Hits(rs[i], p) <==> Hits(rs[i], q)) && (Hits(rs[i], p) ==> Cut(rs[i], p) == Cut(rs[i], q))
  }

  lemma {:induction false} ScanAlike(rs: seq<Range>, p: Range, q: Range)
    requires Alike(rs, p, q)
    ensures Scan(rs, p) == Scan(rs, q)
    ensures Scan(rs, p) < |rs| ==>
      Hits(rs[Scan(rs, p)], p) && Hits(rs[Scan(rs, p)], q) && Cut(rs[Scan(rs, p)], p) == Cut(rs[Scan(rs, p)], q)
  {
    ScanIs(rs, p);
    if rs != [] && !Hits(rs[0], p) {
      ScanAlike(rs[1..], p, q);
    }
  }

  lemma ScanEmpty(q: Range)
    ensures Scan([], q) == 0
  {
  }

  // ----- the search in a tree -----

  /** With smaller bases left of `r` and larger ones right, an address lies in
      `r`, or in the last range before it, or in none. */
  lemma RootOrLeft(l: seq<Range>, r: Range, rt: seq<Range>, addr: nat)
    requires Disjoint(l + [r] + rt) && Under(l, addr) && Over(rt, addr)
    ensures l != [] ==> l[|l| - 1].base < addr
    ensures Covers(l + [r] + rt, addr) <==>
      if addr < r.base then l != [] && l[|l| - 1].End() > addr else r.End() > addr
  {
    DisjointParts(l, r, rt);
    CoversParts(l, r, rt, addr);
    if l != [] {
      var k := |l| - 1;
      if addr < l[k].End() { CoversAt(l, addr, k); }
      assert forall i :: 0 <= i < k ==> l[i].End() <= l[k].base;
    }
  }

  lemma DisjointParts(l: seq<Range>, r: Range, rt: seq<Range>)
    requires Disjoint(l + [r] + rt)
    ensures Disjoint(l) && Disjoint(rt) && r.size > 0
    ensures forall i :: 0 <= i < |l| ==> l[i].base < r.base && l[i].End() <= r.base
    ensures forall i :: 0 <= i < |rt| ==> r.base < rt[i].base && r.End() <= rt[i].base
  {
    var c := l + [r] + rt;
    assert c[|l|] == r;
    DisjointPart(c, 0, |l|);
    DisjointPart(c, |l| + 1, |c|);
    assert c[0..|l|] == l && c[|l| + 1..|c|] == rt;
    assert forall i :: 0 <= i < |l| ==> l[i] == c[i];
    forall i | 0 <= i < |rt| ensures r.base < rt[i].base && r.End() <= rt[i].base {
      assert rt[i] == c[|l| + 1 + i];
    }
  }

  lemma DisjointPart(c: seq<Range>, lo: nat, hi: nat)
    requires Disjoint(c) && lo <= hi <= |c|
    ensures Disjoint(c[lo..hi])
  {
  }

  lemma ScanNone(rs: seq<Range>, q: Range)
    requires Clear(rs, q)
    ensures Scan(rs, q) == |rs|
  {
    assert rs + [] == rs;
    ScanSkips(rs, [], q);
  }

  lemma ClearAfter(r: Range, rt: seq<Range>, q: Range)
    requires r.base >= q.End() && (forall i :: 0 <= i < |rt| ==> r.base < rt[i].base)
    ensures Clear(rt, q)
  {
  }

  lemma ClearBefore(l: seq<Range>, e: nat, q: Range)
    requires (forall i :: 0 <= i < |l| ==> l[i].End() <= e) && e <= q.base
    ensures Clear(l, q)
  {
  }

  /** The node ends before the query: go right. */
  lemma SearchesRight(l: seq<Range>, r: Range, rt: seq<Range>, q: Range)
    requires Disjoint(l + [r] + rt) && r.End() <= q.base
    ensures Scan(l + [r] + rt, q) == |l| + 1 + Scan(rt, q)
  {
    DisjointParts(l, r, rt);
    assert forall i :: 0 <= i < |l + [r]| ==> (l + [r])[i].End() <= q.base;
    ScanSkips(l + [r], rt, q);
  }

  /** Whatever the left part does not hit, and the node and those after it miss. */
  lemma OnlyLeft(l: seq<Range>, r: Range, rt: seq<Range>, q: Range)
    requires Clear([r] + rt, q)
    ensures Scan(l + [r] + rt, q) == if Scan(l, q) < |l| then Scan(l, q) else |l| + 1 + |rt|
  {
    hide Scan, Clear;
    var b := [r] + rt;
    assert l + [r] + rt == l + b;
    if Scan(l, q) < |l| {
      ScanStops(l, b, q);
    } else {
      ScanIs(l, q);
      assert l[..|l|] == l;
      ScanSkips(l, b, q);
      ScanNone(b, q);
    }
  }

  lemma ClearJoin(a: seq<Range>, b: seq<Range>, q: Range)
    requires Clear(a, q) && Clear(b, q)
    ensures Clear(a + b, q)
  {
  }

  /** The node starts after the query's end: go left. */
  lemma SearchesLeft(l: seq<Range>, r: Range, rt: seq<Range>, q: Range)
    requires Disjoint(l + [r] + rt) && r.base > q.End()
    ensures Scan(l + [r] + rt, q) == if Scan(l, q) < |l| then Scan(l, q) else |l| + 1 + |rt|
  {
    hide Disjoint, Scan;
    DisjointParts(l, r, rt);
    ClearAfter(r, rt, q);
    ClearJoin([r], rt, q);
    OnlyLeft(l, r, rt, q);
  }

  /** Only the part of the query before the node is looked up on its left. */
  lemma SearchesHead(l: seq<Range>, r: Range, rt: seq<Range>, q: Range)
    requires Disjoint(l + [r] + rt) && q.base < r.base <= q.End()
    ensures Alike(l, Range(q.base, r.base - q.base, [], 0), q)
  {
    DisjointParts(l, r, rt);
  }

  /** Nothing on the left: the node itself, or nothing at all. */
  lemma SearchesHere(l: seq<Range>, r: Range, rt: seq<Range>, q: Range)
    requires Disjoint(l + [r] + rt) && q.base < r.End() && r.base <= q.End()
    requires Scan(l, q) == |l| || r.base <= q.base
    ensures Scan(l + [r] + rt, q) == if Hits(r, q) then |l| else |l| + 1 + |rt|
  {
    hide Disjoint, Scan;
    DisjointParts(l, r, rt);
    if Scan(l, q) == |l| {
      ScanIs(l, q);
      assert l[..|l|] == l;
    } else {
      ClearBefore(l, r.base, q);
    }
    assert l + [r] + rt == l + ([r] + rt);
    ScanSkips(l, [r] + rt, q);
    if Hits(r, q) {
      FirstHits(r, rt, q);
    } else {
      ClearAfter(r, rt, q);
      ClearJoin([r], rt, q);
      ScanNone([r] + rt, q);
    }
  }

  lemma FirstHits(r: Range, rt: seq<Range>, q: Range)
    requires Hits(r, q)
    ensures Scan([r] + rt, q) == 0
  {
  }

  // ----- what a scan tells about bytes -----

  /** No byte of the query is covered by ranges that miss it. */
  lemma ClearBytes(rs: seq<Range>, q: Range, x: nat)
    requires Sorted(rs) && Clear(rs, q) && q.Holds(x)
    ensures !Covers(rs, x)
  {
    forall i | 0 <= i < |rs| ensures !rs[i].Holds(x) {
      CutIsIntersection(rs[i], q, x);
    }
  }

  /** From range `k` on, nothing is covered before it. */
  lemma FromBytes(rs: seq<Range>, k: nat, x: nat)
    requires Disjoint(rs) && k < |rs| && x < rs[k].base
    ensures !Covers(rs[k..], x)
  {
    forall i | 0 <= i < |rs[k..]| ensures !rs[k..][i].Holds(x) {
      assert rs[k..][i] == rs[k + i] && (i > 0 ==> rs[k].base < rs[k + i].base);
    }
  }

  /** The overlap found holds the lowest bytes of the query that are covered. */
  lemma ScanBytes(rs: seq<Range>, q: Range, x: nat)
    requires Disjoint(rs) && q.size > 0
    ensures var k := Scan(rs, q);
      if k == |rs| then q.Holds(x) ==> !Covers(rs, x)
      else
        && Hits(rs[k], q)
        && var c := Cut(rs[k], q);
        && c.size > 0 && q.base <= c.base && c.End() <= q.End()
        && (c.Holds(x) ==> Covers(rs, x)) && (q.base <= x < c.base ==> !Covers(rs, x))
        && (c.End() < q.End() ==> c.End() == rs[k].End())
  {
    hide Scan, Covers, Clear;
    var k := Scan(rs, q);
    ScanIs(rs, q);
    assert rs == rs[..k] + rs[k..];
    CoversConcat(rs[..k], rs[k..], x);
    DisjointPart(rs, 0, k);
    if q.Holds(x) { ClearBytes(rs[..k], q, x); }
    if k < |rs| {
      CutIsIntersection(rs[k], q, x);
      if rs[k].Holds(x) { CoversAt(rs, x, k); }
      if x < rs[k].base { FromBytes(rs, k, x); }
    } else {
      CoversNone(x);
    }
  }

  // ----- ascending additions -----

  /** Every range ends before `e`. */
  ghost predicate EndsUnder(rs: seq<Range>, e: nat) { forall i :: 0 <= i < |rs| ==> rs[i].End() < e }

  /** A range beyond all others is appended, whichever range is at the root. */
  lemma AddedLast(rs: seq<Range>, k: nat, n: Range)
    requires CanAdd(rs, k, n) && EndsUnder(rs, n.base)
    ensures Added(rs, k, n) == rs + [n]
  {
    NoneAfter(rs, k, n.base);
    assert rs[k + 1..] == [];
    assert rs[..k + 1] == rs;
  }

  lemma NoneAfter(rs: seq<Range>, k: nat, e: nat)
    requires k < |rs| && EndsUnder(rs, e) && Over(rs[k + 1..], e)
    ensures k + 1 == |rs|
  {
    assert k + 1 < |rs| ==> rs[k + 1..][0] == rs[k + 1];
  }
}
