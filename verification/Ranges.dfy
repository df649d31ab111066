/** Memory ranges and ordered lists of ranges: what a range map stands for. */
module Ranges {

  type Byte = b: nat | b < 256

  /** A buffer pointer is modelled by what the buffer holds; [] is NULL. */
  type Data = seq<Byte>

  function Min(a: nat, b: nat): nat { if a < b then a else b }

  function Max(a: nat, b: nat): nat { if a < b then b else a }

  datatype Range = Range(base: nat, size: nat, rec: Data, task: nat) {
    function End(): nat { base + size }

    predicate Holds(x: nat) { base <= x < base + size }
  }

  /** Ascending start addresses, no range empty. */
  ghost predicate Sorted(rs: seq<Range>) {
    && (forall i :: 0 <= i < |rs| ==> rs[i].size > 0)
    && (forall i, j :: 0 <= i < j < |rs| ==> rs[i].base < rs[j].base)
  }

  /** Sorted, and no two ranges share a byte. */
  ghost predicate Disjoint(rs: seq<Range>) {
    Sorted(rs) && forall i, j :: 0 <= i < j < |rs| ==> rs[i].End() <= rs[j].base
  }

  /** Normal form: sorted, disjoint, and never touching. */
  ghost predicate Normal(rs: seq<Range>) {
    Sorted(rs) && forall i, j :: 0 <= i < j < |rs| ==> rs[i].End() < rs[j].base
  }

  lemma NormalSorted(rs: seq<Range>)
    requires Normal(rs)
    ensures Sorted(rs) && Disjoint(rs)
  {
  }

  lemma DisjointSorted(rs: seq<Range>)
    requires Disjoint(rs)
    ensures Sorted(rs)
  {
  }

  lemma OneNormal(r: Range)
    requires r.size > 0
    ensures Normal([r])
  {
  }

  /** Byte `x` is covered. */
  ghost predicate Covers(rs: seq<Range>, x: nat) {
    exists i :: 0 <= i < |rs| && rs[i].Holds(x)
  }

  lemma CoversAt(rs: seq<Range>, x: nat, i: nat)
    requires i < |rs| && rs[i].Holds(x)
    ensures Covers(rs, x)
  {
  }

  lemma CoversConcat(a: seq<Range>, b: seq<Range>, x: nat)
    ensures Covers(a + b, x) <==> Covers(a, x) || Covers(b, x)
  {
    if Covers(a, x) {
      var i :| 0 <= i < |a| && a[i].Holds(x);
      CoversAt(a + b, x, i);
    }
    if Covers(b, x) {
      var i :| 0 <= i < |b| && b[i].Holds(x);
      CoversAt(a + b, x, |a| + i);
    }
    if Covers(a + b, x) {
      var i :| 0 <= i < |a + b| && (a + b)[i].Holds(x);
      if i < |a| { CoversAt(a, x, i); } else { CoversAt(b, x, i - |a|); }
    }
  }

  lemma CoversOne(r: Range, x: nat)
    ensures Covers([r], x) <==> r.Holds(x)
  {
    if r.Holds(x) { CoversAt([r], x, 0); }
  }

  /** Normal form is canonical: two normal lists that cover the same bytes
      have the same ranges. */
  lemma {:induction false} NormalUnique(a: seq<Range>, b: seq<Range>)
    requires Normal(a) && Normal(b) && forall x :: Covers(a, x) <==> Covers(b, x)
    ensures |a| == |b| && forall i :: 0 <= i < |a| ==> a[i].base == b[i].base && a[i].size == b[i].size
    decreases |a|
  {
    if a == [] || b == [] {
      if a != [] { CoversAt(a, a[0].base, 0); }
      if b != [] { CoversAt(b, b[0].base, 0); }
    } else {
      SameFirst(a, b);
      SameFirst(b, a);
      SameEnd(a, b);
      SameEnd(b, a);
      forall x ensures Covers(a[1..], x) <==> Covers(b[1..], x) {
        RestCovers(a, x);
        RestCovers(b, x);
      }
      NormalUnique(a[1..], b[1..]);
      assert forall i :: 1 <= i < |a| ==> a[i] == a[1..][i - 1] && b[i] == b[1..][i - 1];
    }
  }

  lemma SameFirst(a: seq<Range>, b: seq<Range>)
    requires Normal(a) && Normal(b) && a != [] && b != [] && forall x :: Covers(a, x) ==> Covers(b, x)
    ensures b[0].base <= a[0].base
  {
    CoversAt(a, a[0].base, 0);
    var i :| 0 <= i < |b| && b[i].Holds(a[0].base);
  }

  /** In normal form the byte just past a range is not covered. */
  lemma GapAfter(rs: seq<Range>, i: nat)
    requires Normal(rs) && i < |rs|
    ensures !Covers(rs, rs[i].End())
  {
  }

  lemma SameEnd(a: seq<Range>, b: seq<Range>)
    requires Normal(a) && Normal(b) && a != [] && b != [] && a[0].base == b[0].base
    requires forall x :: Covers(a, x) <==> Covers(b, x)
    ensures a[0].End() <= b[0].End()
  {
    GapAfter(b, 0);
    if b[0].End() < a[0].End() {
      CoversAt(a, b[0].End(), 0);
    }
  }

  lemma RestCovers(a: seq<Range>, x: nat)
    requires Normal(a) && a != []
    ensures Covers(a[1..], x) <==> Covers(a, x) && !a[0].Holds(x)
  {
    if Covers(a[1..], x) {
      var i :| 0 <= i < |a[1..]| && a[1..][i].Holds(x);
      CoversAt(a, x, i + 1);
    }
    if Covers(a, x) && !a[0].Holds(x) {
      var i :| 0 <= i < |a| && a[i].Holds(x);
      CoversAt(a[1..], x, i - 1);
    }
  }

  // ----- the overlap of two ranges -----

  /** `overlap`: nonzero exactly when it finds common bytes (an empty second
      range counts as found inside the first). */
  predicate Hits(b: Range, r: Range) {
    if b.base <= r.base then b.End() > r.base else r.End() > b.base
  }

  /** The overlap it stores: start and size. */
  function Cut(b: Range, r: Range): (c: Range)
    requires Hits(b, r)
  {
    if b.base <= r.base then
      if b.End() <= r.End() then Range(r.base, b.End() - r.base, [], 0) else Range(r.base, r.size, [], 0)
    else
      if r.End() <= b.End() then Range(b.base, r.End() - b.base, [], 0) else Range(b.base, b.size, [], 0)
  }

  /** The overlap is the set intersection. */
  lemma CutIsIntersection(b: Range, r: Range, x: nat)
    ensures Hits(b, r) ==> (Cut(b, r).Holds(x) <==> b.Holds(x) && r.Holds(x))
    ensures b.size > 0 && r.size > 0 ==> (Hits(b, r) <==> exists y :: b.Holds(y) && r.Holds(y))
    ensures b.size > 0 && r.size > 0 && Hits(b, r) ==> Cut(b, r).size > 0
  {
    if b.size > 0 && r.size > 0 && Hits(b, r) {
      var y := if b.base <= r.base then r.base else b.base;
      assert b.Holds(y) && r.Holds(y);
    }
  }
}
