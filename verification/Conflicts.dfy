/** The read-after-write check of one task against the writes before it. */
module Conflicts {
  import opened Ranges
  import opened RangeTree
  import opened Scans
  import opened SetOps
  import opened RangeMaps
  import opened TaskRanges

  /** The access is one whole range of the union, received whole from the task
      that wrote it last. */
  predicate Received(a: Range, w: Range, received: seq<Range>) {
    && Hits(w, a) && SameExtent(Cut(w, a), a) && SameExtent(w, Cut(w, a))
    && var j := Scan(received, a);
    && j < |received| && Hits(received[j], a) && SameExtent(Cut(w, a), Cut(received[j], a))
    && received[j].task == w.task
  }

  predicate Admitted(a: Range, union: seq<Range>, received: seq<Range>) {
    var k := Scan(union, a);
    k == |union| || Received(a, union[k], received)
  }

  /** Start of the first overlap that is not admitted; 0 for none. */
  function FirstConflict(accesses: seq<Range>, union: seq<Range>, received: seq<Range>): nat {
    if accesses == [] then 0
    else if Admitted(accesses[0], union, received) then FirstConflict(accesses[1..], union, received)
    else
      var w := union[Scan(union, accesses[0])];
      if Hits(w, accesses[0]) then Cut(w, accesses[0]).base else 0
  }

  /** In a disjoint list one range holds a byte. */
  lemma OneHolder(rs: seq<Range>, r: Range, k: nat, x: nat)
    requires Disjoint(rs) && r in rs && r.Holds(x) && k < |rs| && rs[k].Holds(x)
    ensures r == rs[k]
  {
    assert forall j :: 0 <= j < |rs| && j != k ==> !rs[j].Holds(x);
  }

  lemma CutInside(b: Range, r: Range)
    requires Hits(b, r) && b.size > 0 && r.size > 0
    ensures b.Holds(Cut(b, r).base) && r.Holds(Cut(b, r).base) && Cut(b, r).size > 0
  {
  }

  /** The overlap a scan found. */
  lemma ScanFound(rs: seq<Range>, a: Range)
    requires Disjoint(rs) && a.size > 0 && Scan(rs, a) < |rs|
    ensures var k := Scan(rs, a);
      && Hits(rs[k], a) && Covers(rs, Cut(rs[k], a).base)
      && rs[k].Holds(Cut(rs[k], a).base) && a.Holds(Cut(rs[k], a).base)
  {
    var k := Scan(rs, a);
    ScanIs(rs, a);
    CutInside(rs[k], a);
    CoversAt(rs, Cut(rs[k], a).base, k);
  }

  /** `check_for_overlap`. */
  method CheckForOverlap(accesses: RangeMap, union: RangeMap, received: RangeMap) returns (conflict: nat)
    requires accesses.Valid() && Sorted(accesses.Ranges())
    requires union.Valid() && Disjoint(union.Ranges())
    requires received.Valid() && Disjoint(received.Ranges())
    requires accesses != union && accesses != received && union != received
    modifies union`nodes, union`root, union`tree, received`nodes, received`root, received`tree
    ensures union.Valid() && union.Ranges() == old(union.Ranges())
    ensures received.Valid() && received.Ranges() == old(received.Ranges())
    ensures conflict == FirstConflict(accesses.Ranges(), union.Ranges(), received.Ranges())
  {
    hide Spells, Apart, Nodes, Contents, Disjoint, Covers, Scan, Hits, Cut;
    ghost var acc, ws, rs := accesses.Ranges(), union.Ranges(), received.Ranges();
    if union.size == 0 {
      NoUnion(acc, rs);
      return 0;
    }
    var ranges := accesses.ToArray();
    for i := 0 to |ranges|
      invariant accesses.Valid() && accesses.Ranges() == acc
      invariant union.Valid() && union.Ranges() == ws && received.Valid() && received.Ranges() == rs
      invariant FirstConflict(acc, ws, rs) == FirstConflict(acc[i..], ws, rs)
    {
      var mseg := ranges[i];
      assert acc[i..][0] == mseg && acc[i..][1..] == acc[i + 1..];
      var found, access := union.Overlaps(mseg);
      if found {
        var free := false;
        ghost var k := Scan(ws, mseg);
        ScanFound(ws, mseg);
        if SameExtent(access, mseg) {
          var p := union.Contains(access.base);
          OneHolder(ws, union.nodes[p].r, k, access.base);
          var last := union.nodes[p].r;
          if SameExtent(last, access) {
            var again, recv := received.Overlaps(mseg);
            if again {
              ScanFound(rs, mseg);
              if SameExtent(access, recv) {
                var q := received.Contains(recv.base);
                OneHolder(rs, received.nodes[q].r, Scan(rs, mseg), recv.base);
                free := received.nodes[q].r.task == last.task;
              }
            }
          }
        }
        if !free { return access.base; }
      }
    }
    assert acc[|acc|..] == [];
    conflict := 0;
  }

  lemma {:induction false} NoUnion(accesses: seq<Range>, received: seq<Range>)
    ensures FirstConflict(accesses, [], received) == 0
  {
    if accesses != [] { NoUnion(accesses[1..], received); }
  }

  // ----- what the check means -----

  /** Some byte is both accessed and written. */
  ghost predicate Shared(accesses: seq<Range>, union: seq<Range>) {
    exists x: nat :: Covers(accesses, x) && Covers(union, x)
  }

  /** Without receives, one range is admitted exactly when nobody wrote in it. */
  lemma AdmittedExactly(a: Range, union: seq<Range>)
    requires Disjoint(union) && a.size > 0
    ensures Admitted(a, union, []) <==> !Shared([a], union)
    ensures !Admitted(a, union, []) ==>
      var w := union[Scan(union, a)];
      Hits(w, a) && (Cut(w, a).base == 0 <==> a.Holds(0) && Covers(union, 0))
  {
    var k := Scan(union, a);
    ScanEmpty(a);
    forall x: nat ensures k == |union| ==> !(Covers([a], x) && Covers(union, x)) {
      ScanBytes(union, a, x);
      CoversOne(a, x);
    }
    if k < |union| {
      ScanFound(union, a);
      CoversOne(a, Cut(union[k], a).base);
      ScanBytes(union, a, 0);
    }
  }

  /** Without receives the check answers 0 exactly when no accessed byte was
      written before, except that it cannot report byte 0. */
  lemma {:induction false} CheckExactly(accesses: seq<Range>, union: seq<Range>)
    requires Disjoint(union) && Sorted(accesses)
    ensures FirstConflict(accesses, union, []) == 0 <==>
      !Shared(accesses, union) || (Covers(accesses, 0) && Covers(union, 0))
  {
    if accesses == [] {
    } else {
      var a, rest := accesses[0], accesses[1..];
      AdmittedExactly(a, union);
      forall x: nat ensures Covers(accesses, x) <==> Covers([a], x) || Covers(rest, x) {
        assert accesses == [a] + rest;
        CoversConcat([a], rest, x);
      }
      CoversOne(a, 0);
      NotAtZero(accesses);
      CheckExactly(rest, union);
    }
  }

  lemma NotAtZero(accesses: seq<Range>)
    requires Sorted(accesses) && accesses != []
    ensures !Covers(accesses[1..], 0)
  {
    forall i | 0 <= i < |accesses[1..]| ensures !accesses[1..][i].Holds(0) {
      assert accesses[0].base < accesses[i + 1].base;
    }
  }

  /** The access is all of range `w`, and lies in range `r` received from its writer. */
  predicate SentWhole(a: Range, w: Range, r: Range) {
    SameExtent(w, a) && r.task == w.task && r.base <= a.base && a.End() <= r.End()
  }

  /** The access was not written before, or is one whole range of the union, received
      from its last writer. */
  ghost predicate Excused(a: Range, union: seq<Range>, received: seq<Range>) {
    !Shared([a], union) || exists w, r :: w in union && r in received && SentWhole(a, w, r)
  }

  /** Two ranges that are one and the same cut each other whole. */
  lemma CutWhole(b: Range, a: Range)
    requires a.size > 0 && b.base <= a.base && a.End() <= b.End()
    ensures Hits(b, a) && SameExtent(Cut(b, a), a)
  {
  }

  lemma ClearUpTo(rs: seq<Range>, k: nat, q: Range)
    requires k <= |rs| && Clear(rs[..k], q)
    ensures forall i :: 0 <= i < k ==> !Hits(rs[i], q)
  {
    forall i | 0 <= i < k ensures !Hits(rs[i], q) { assert rs[..k][i] == rs[i]; }
  }

  /** A range that holds all of the access is the one a scan finds. */
  lemma ScanHolder(rs: seq<Range>, b: Range, a: Range)
    requires Disjoint(rs) && b in rs && a.size > 0 && b.base <= a.base && a.End() <= b.End()
    ensures Scan(rs, a) < |rs| && rs[Scan(rs, a)] == b
  {
    CutWhole(b, a);
    var i :| 0 <= i < |rs| && rs[i] == b;
    ScanIs(rs, a);
    var k := Scan(rs, a);
    ClearUpTo(rs, k, a);
    ScanFound(rs, a);
    OneHolder(rs, b, k, Cut(rs[k], a).base);
  }

  /** One range is admitted exactly when it is excused. */
  lemma AdmittedWhenExcused(a: Range, union: seq<Range>, received: seq<Range>)
    requires Disjoint(union) && Disjoint(received) && a.size > 0
    ensures Admitted(a, union, received) <==> Excused(a, union, received)
  {
    var k := Scan(union, a);
    if k == |union| {
      forall x: nat ensures !(Covers([a], x) && Covers(union, x)) {
        ScanBytes(union, a, x);
        CoversOne(a, x);
      }
    } else {
      ScanFound(union, a);
      CoversOne(a, Cut(union[k], a).base);
      if Admitted(a, union, received) {
        assert SentWhole(a, union[k], received[Scan(received, a)]);
      }
      if w, r :| w in union && r in received && SentWhole(a, w, r) {
        ScanHolder(union, w, a);
        CutWhole(w, a);
        ScanHolder(received, r, a);
        CutWhole(r, a);
      }
    }
  }

  /** With receives the check answers 0 exactly when every access is excused. */
  lemma {:induction false} AcceptedExactly(accesses: seq<Range>, union: seq<Range>, received: seq<Range>)
    requires Disjoint(union) && Disjoint(received) && Sorted(accesses) && forall r :: r in accesses ==> r.base > 0
    ensures FirstConflict(accesses, union, received) == 0 <==> forall a :: a in accesses ==> Excused(a, union, received)
  {
    if accesses != [] {
      var a, rest := accesses[0], accesses[1..];
      assert a in accesses && accesses == [a] + rest;
      AdmittedWhenExcused(a, union, received);
      if !Admitted(a, union, received) {
        ScanIs(union, a);
        ScanFound(union, a);
      }
      AcceptedExactly(rest, union, received);
    }
  }

  // ----- which address is reported -----

  /** The first byte of the access that is in the union. */
  ghost predicate FirstShared(a: Range, union: seq<Range>, x: nat) {
    a.Holds(x) && Covers(union, x) && forall y: nat :: a.Holds(y) && Covers(union, y) ==> x <= y
  }

  /** The address answered for one range that is not excused. */
  lemma ReportedByte(a: Range, union: seq<Range>, received: seq<Range>)
    requires Disjoint(union) && a.size > 0 && !Admitted(a, union, received)
    ensures FirstShared(a, union, FirstConflict([a], union, received))
  {
    var k := Scan(union, a);
    ScanIs(union, a);
    ScanFound(union, a);
    forall y: nat ensures a.Holds(y) && Covers(union, y) ==> Cut(union[k], a).base <= y { ScanBytes(union, a, y); }
  }

  /** The conflict of range `i` is answered: the ranges before it are excused, it is
      not, and `x` is its first byte written before. */
  ghost predicate Reported(accesses: seq<Range>, union: seq<Range>, received: seq<Range>, i: nat, x: nat) {
    && i < |accesses| && !Excused(accesses[i], union, received) && FirstShared(accesses[i], union, x)
    && forall j :: 0 <= j < i ==> Excused(accesses[j], union, received)
  }

  /** The check answers the first byte written before of the first range that is not
      excused, and 0 when all are. */
  lemma {:induction false} ConflictExactly(accesses: seq<Range>, union: seq<Range>, received: seq<Range>)
    requires Disjoint(union) && Disjoint(received) && forall a :: a in accesses ==> a.size > 0
    ensures var x := FirstConflict(accesses, union, received);
      if forall a :: a in accesses ==> Excused(a, union, received) then x == 0
      else exists i: nat :: Reported(accesses, union, received, i, x)
  {
    hide Admitted, Excused, FirstShared;
    if accesses != [] {
      var a, rest := accesses[0], accesses[1..];
      assert a in accesses && accesses == [a] + rest;
      AdmittedWhenExcused(a, union, received);
      if Admitted(a, union, received) {
        ConflictExactly(rest, union, received);
        var x := FirstConflict(rest, union, received);
        assert x == FirstConflict(accesses, union, received) && forall b :: b in accesses <==> b == a || b in rest;
        if i: nat :| Reported(rest, union, received, i, x) {
          assert rest[i] in accesses && accesses[i + 1] == rest[i];
          forall j | 0 <= j < i + 1 ensures Excused(accesses[j], union, received) {
            assert j > 0 ==> accesses[j] == rest[j - 1];
          }
          assert Reported(accesses, union, received, i + 1, x);
        }
      } else {
        ReportedByte(a, union, received);
        assert Reported(accesses, union, received, 0, FirstConflict(accesses, union, received));
      }
    }
  }

  /** Without receives the answer is the first of all accessed bytes written before. */
  lemma ConflictIsFirst(accesses: seq<Range>, union: seq<Range>)
    requires Disjoint(union) && Sorted(accesses) && Shared(accesses, union)
    ensures var x := FirstConflict(accesses, union, []);
      && Covers(accesses, x) && Covers(union, x)
      && forall y: nat :: Covers(accesses, y) && Covers(union, y) ==> x <= y
  {
    ConflictExactly(accesses, union, []);
    var x := FirstConflict(accesses, union, []);
    var z: nat :| Covers(accesses, z) && Covers(union, z);
    var k := HolderOf(accesses, z);
    NotExcused(accesses[k], union, z);
    var i: nat :| Reported(accesses, union, [], i, x);
    CoversAt(accesses, x, i);
    forall y: nat | Covers(accesses, y) && Covers(union, y) ensures x <= y {
      var j := HolderOf(accesses, y);
      NotExcused(accesses[j], union, y);
    }
  }

  lemma HolderOf(rs: seq<Range>, x: nat) returns (k: nat)
    requires Covers(rs, x)
    ensures k < |rs| && rs[k].Holds(x) && rs[k] in rs
  {
    k :| k < |rs| && rs[k].Holds(x);
  }

  lemma NotExcused(a: Range, union: seq<Range>, x: nat)
    requires a.Holds(x) && Covers(union, x)
    ensures !Excused(a, union, [])
  {
    CoversOne(a, x);
  }
}
