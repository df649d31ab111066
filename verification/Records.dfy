/** What recording ranges from tasks adds up to. */
module Records {
  import opened Ranges
  import opened Splays
  import opened Coalesce
  import opened Scans
  import opened SetOps
  import opened TaskRanges

  predicate ApartOf(a: Range, b: Range) { a.End() <= b.base || b.End() <= a.base }

  /** Equal extent, or no common byte. */
  predicate Fit(a: Range, b: Range) { SameExtent(a, b) || ApartOf(a, b) }

  ghost predicate FitsAll(n: Range, rs: seq<Range>) { forall i :: 0 <= i < |rs| ==> Fit(n, rs[i]) }

  /** Two of them that share a byte are the same range. */
  ghost predicate Tidy(ns: seq<Range>) {
    forall i, j :: 0 <= i < |ns| && 0 <= j < |ns| ==> ns[i].size > 0 && Fit(ns[i], ns[j])
  }

  lemma ApartMeans(a: Range, b: Range)
    requires a.size > 0 && b.size > 0
    ensures ApartOf(a, b) <==> !Hits(a, b)
    ensures ApartOf(a, b) <==> !exists x :: a.Holds(x) && b.Holds(x)
  {
    CutIsIntersection(a, b, a.base);
  }

  lemma AddedSorted(rs: seq<Range>, n: Range, i: nat)
    requires Sorted(rs) && n.size > 0 && i <= |rs| && Under(rs[..i], n.base) && Over(rs[i..], n.base)
    ensures Sorted(rs[..i] + [n] + rs[i..])
  {
    var c := rs[..i] + [n] + rs[i..];
    assert forall j :: 0 <= j < i ==> c[j] == rs[j] && rs[..i][j] == rs[j];
    assert forall j :: i < j < |c| ==> c[j] == rs[j - 1] && rs[i..][j - 1 - i] == rs[j - 1];
  }

  lemma AddedDisjoint(rs: seq<Range>, n: Range, i: nat)
    requires Disjoint(rs) && n.size > 0 && i <= |rs| && Under(rs[..i], n.base) && Over(rs[i..], n.base)
    ensures Disjoint(rs[..i] + [n] + rs[i..]) <==> forall j :: 0 <= j < |rs| ==> ApartOf(n, rs[j])
  {
    hide Disjoint, Sorted;
    var c := rs[..i] + [n] + rs[i..];
    DisjointSorted(rs);
    AddedSorted(rs, n, i);
    if Disjoint(c) {
      ApartIfDisjoint(rs, n, i);
    }
    if forall j :: 0 <= j < |rs| ==> ApartOf(n, rs[j]) {
      DisjointIfApart(rs, n, i);
    }
  }

  lemma ApartIfDisjoint(rs: seq<Range>, n: Range, i: nat)
    requires i <= |rs| && Disjoint(rs[..i] + [n] + rs[i..])
    ensures forall j :: 0 <= j < |rs| ==> ApartOf(n, rs[j])
  {
    var c := rs[..i] + [n] + rs[i..];
    assert c[i] == n;
    forall j | 0 <= j < |rs| ensures ApartOf(n, rs[j]) {
      assert j < i ==> c[j] == rs[j] && c[j].End() <= c[i].base;
      assert j >= i ==> c[j + 1] == rs[j] && c[i].End() <= c[j + 1].base;
    }
  }

  lemma DisjointIfApart(rs: seq<Range>, n: Range, i: nat)
    requires Disjoint(rs) && n.size > 0 && i <= |rs| && Under(rs[..i], n.base) && Over(rs[i..], n.base)
    requires forall j :: 0 <= j < |rs| ==> ApartOf(n, rs[j])
    ensures Disjoint(rs[..i] + [n] + rs[i..])
  {
    var c := rs[..i] + [n] + rs[i..];
    AddedSorted(rs, n, i);
    forall j, k | 0 <= j < k < |c| ensures c[j].End() <= c[k].base {
      if k < i {
        assert c[j] == rs[j] && c[k] == rs[k];
      } else if j > i {
        assert c[j] == rs[j - 1] && c[k] == rs[k - 1];
      } else if j < i && k > i {
        assert c[j] == rs[j] && c[k] == rs[k - 1];
      } else if j < i {
        assert c[j] == rs[j] && rs[..i][j] == rs[j];
      } else {
        assert c[k] == rs[k - 1] && rs[i..][k - 1 - i] == rs[k - 1];
      }
    }
  }

  /** Recording keeps the ranges in order; disjoint ranges stay disjoint exactly
      when the new range has no byte in common with one of another extent. */
  lemma RecordedOrder(rs: seq<Range>, n: Range, o: Outcome, i: nat, rs': seq<Range>)
    requires Recorded(rs, n, o, i, rs') && o.Done() && Sorted(rs) && n.size > 0
    ensures Sorted(rs')
    ensures Disjoint(rs) ==> (Disjoint(rs') <==> FitsAll(n, rs))
  {
    if o.Added? {
      AddedSorted(rs, n, i);
      NoneEqual(rs, n, i);
      if Disjoint(rs) { AddedDisjoint(rs, n, i); }
    } else if Disjoint(rs) {
      EqualFits(rs, n, i);
    }
  }

  /** A newly placed range has no equal. */
  lemma NoneEqual(rs: seq<Range>, n: Range, i: nat)
    requires i <= |rs| && Under(rs[..i], n.base) && Over(rs[i..], n.base)
    ensures forall j :: 0 <= j < |rs| ==> rs[j].base != n.base
  {
    forall j | 0 <= j < |rs| ensures rs[j].base != n.base {
      assert j < i ==> rs[..i][j] == rs[j];
      assert j >= i ==> rs[i..][j - i] == rs[j];
    }
  }

  lemma EqualFits(rs: seq<Range>, n: Range, i: nat)
    requires Disjoint(rs) && i < |rs| && SameExtent(rs[i], n)
    ensures FitsAll(n, rs)
  {
    forall j | 0 <= j < |rs| ensures Fit(n, rs[j]) {
      assert j < i ==> rs[j].End() <= rs[i].base;
      assert j > i ==> rs[i].End() <= rs[j].base;
    }
  }

  /** Nothing is lost and nothing invented, disjoint or not. */
  lemma RecordedCovers(rs: seq<Range>, n: Range, o: Outcome, i: nat, rs': seq<Range>, x: nat)
    requires Recorded(rs, n, o, i, rs') && o.Done()
    ensures Covers(rs', x) <==> Covers(rs, x) || n.Holds(x)
  {
    if o.Added? {
      assert rs == rs[..i] + rs[i..];
      CoversConcat(rs[..i], rs[i..], x);
      CoversParts(rs[..i], n, rs[i..], x);
    } else {
      assert rs == rs[..i] + [rs[i]] + rs[i + 1..];
      assert rs' == rs[..i] + [rs'[i]] + rs[i + 1..];
      CoversParts(rs[..i], rs[i], rs[i + 1..], x);
      CoversParts(rs[..i], rs'[i], rs[i + 1..], x);
    }
  }

  /** A range that is equal to or apart from every stored one never aborts. */
  lemma FittingDone(rs: seq<Range>, n: Range, o: Outcome, i: nat, rs': seq<Range>)
    requires Recorded(rs, n, o, i, rs') && Sorted(rs) && n.size > 0 && FitsAll(n, rs)
    ensures o.Done()
  {
    if !o.Done() {
      ApartMeans(n, rs[i]);
    }
  }

  // ----- the latest record of each range -----

  /** The stored ranges are those received, each with the record of the last task
      that sent it. */
  ghost predicate Stored(ns: seq<Range>, rs: seq<Range>) {
    && Disjoint(rs)
    && (forall r :: r in rs ==> r in ns)
    && (forall r, s :: r in rs && s in ns && SameExtent(r, s) ==> s.task <= r.task)
    && (forall s :: s in ns ==> HasExtent(rs, s))
  }

  ghost predicate HasExtent(rs: seq<Range>, s: Range) { exists r :: r in rs && SameExtent(r, s) }

  lemma FindExtent(rs: seq<Range>, s: Range) returns (i: nat)
    requires HasExtent(rs, s)
    ensures i < |rs| && SameExtent(rs[i], s)
  {
    var r :| r in rs && SameExtent(r, s);
    i :| 0 <= i < |rs| && rs[i] == r;
  }

  lemma ExtentAt(rs: seq<Range>, s: Range, i: nat)
    requires i < |rs| && SameExtent(rs[i], s)
    ensures HasExtent(rs, s)
  {
    assert rs[i] in rs;
  }

  lemma FitsStored(ns: seq<Range>, n: Range, rs: seq<Range>)
    requires Tidy(ns + [n]) && Stored(ns, rs)
    ensures FitsAll(n, rs) && n.size > 0
  {
    var c := ns + [n];
    assert c[|ns|] == n;
    forall j | 0 <= j < |rs| ensures Fit(n, rs[j]) {
      assert rs[j] in ns;
      var i :| 0 <= i < |ns| && ns[i] == rs[j];
      assert c[i] == rs[j];
    }
  }

  lemma StoredAdded(ns: seq<Range>, n: Range, rs: seq<Range>, i: nat)
    requires Stored(ns, rs) && FitsAll(n, rs) && n.size > 0 && i <= |rs| && Under(rs[..i], n.base)
      && Over(rs[i..], n.base)
    ensures Stored(ns + [n], rs[..i] + [n] + rs[i..])
  {
    hide Disjoint, HasExtent;
    var c := rs[..i] + [n] + rs[i..];
    NoneEqual(rs, n, i);
    AddedDisjoint(rs, n, i);
    forall j | 0 <= j < |rs| ensures ApartOf(n, rs[j]) { assert Fit(n, rs[j]); }
    PutIn(rs, n, i);
    forall s | s in ns + [n] ensures HasExtent(c, s) {
      if s in ns {
        var k := FindExtent(rs, s);
        ExtentAt(c, s, if k < i then k else k + 1);
      } else {
        ExtentAt(c, n, i);
      }
    }
    forall r, s | r in c && s in ns + [n] && SameExtent(r, s) ensures s.task <= r.task {
      if s != n && r == n {
        var _ := FindExtent(rs, s);
      }
    }
  }

  lemma PutIn(rs: seq<Range>, n: Range, i: nat)
    requires i <= |rs|
    ensures var c := rs[..i] + [n] + rs[i..];
      && (forall r :: r in c <==> r in rs || r == n) && c[i] == n
      && (forall k :: 0 <= k < i ==> c[k] == rs[k]) && (forall k :: i <= k < |rs| ==> c[k + 1] == rs[k])
  {
    assert rs == rs[..i] + rs[i..];
  }

  lemma StoredUpdated(ns: seq<Range>, n: Range, rs: seq<Range>, i: nat)
    requires Stored(ns, rs) && i < |rs| && SameExtent(rs[i], n) && rs[i].task <= n.task
    ensures Stored(ns + [n], rs[i := rs[i].(rec := n.rec, task := n.task)])
  {
    hide HasExtent;
    var c := rs[i := rs[i].(rec := n.rec, task := n.task)];
    assert c[i] == n;
    assert Disjoint(c);
    OthersDiffer(rs, i);
    hide Disjoint;
    assert rs[i] in rs;
    forall s | s in ns + [n] ensures HasExtent(c, s) {
      if s in ns {
        var j := FindExtent(rs, s);
        ExtentAt(c, s, j);
      } else {
        ExtentAt(c, n, i);
      }
    }
    forall r, s | r in c && s in ns + [n] && SameExtent(r, s) ensures s.task <= r.task {
      var j :| 0 <= j < |c| && c[j] == r;
      assert j != i ==> rs[j] == r && rs[j] in rs;
    }
  }

  lemma OthersDiffer(rs: seq<Range>, i: nat)
    requires Disjoint(rs) && i < |rs|
    ensures forall j :: 0 <= j < |rs| && j != i ==> rs[j].base != rs[i].base
  {
  }

  lemma StoredKept(ns: seq<Range>, n: Range, rs: seq<Range>, i: nat)
    requires Stored(ns, rs) && i < |rs| && SameExtent(rs[i], n) && rs[i].task > n.task
    ensures Stored(ns + [n], rs)
  {
    OthersDiffer(rs, i);
    hide Disjoint, HasExtent;
    assert rs[i] in rs;
    forall r, s | r in rs && s in ns + [n] && SameExtent(r, s) ensures s.task <= r.task {
      var j :| 0 <= j < |rs| && rs[j] == r;
    }
    forall s | s in ns + [n] ensures HasExtent(rs, s) {
      if s == n { ExtentAt(rs, n, i); }
    }
  }

  /** One more insertion: it succeeds, and what is stored is again the latest
      record of each range. */
  lemma StoredStep(ns: seq<Range>, n: Range, rs: seq<Range>, o: Outcome, i: nat, rs': seq<Range>)
    requires Stored(ns, rs) && Tidy(ns + [n]) && Recorded(rs, n, o, i, rs')
    ensures o.Done() && Stored(ns + [n], rs')
  {
    FitsStored(ns, n, rs);
    DisjointSorted(rs);
    FittingDone(rs, n, o, i, rs');
    match o {
      case Added => StoredAdded(ns, n, rs, i);
      case Replaced => StoredUpdated(ns, n, rs, i);
      case Dropped => StoredKept(ns, n, rs, i);
    }
  }

  /** No two different records of one range come from the same task. */
  ghost predicate DistinctSenders(ns: seq<Range>) {
    forall s, t :: s in ns && t in ns && SameExtent(s, t) && s.task == t.task ==> s == t
  }

  /** What is stored does not depend on the order of insertion. */
  lemma OrderIrrelevant(ns: seq<Range>, ms: seq<Range>, a: seq<Range>, b: seq<Range>)
    requires Stored(ns, a) && Stored(ms, b) && DistinctSenders(ns) && multiset(ns) == multiset(ms)
    ensures a == b
  {
    forall s ensures s in ns <==> s in ms {
      assert s in ns <==> s in multiset(ns);
      assert s in ms <==> s in multiset(ms);
    }
    SameStored(ns, ms, a, b);
    assert DistinctSenders(ms);
    SameStored(ms, ns, b, a);
    DisjointSorted(a);
    DisjointSorted(b);
    SortedSame(a, b);
  }

  lemma SameStored(ns: seq<Range>, ms: seq<Range>, a: seq<Range>, b: seq<Range>)
    requires Stored(ns, a) && Stored(ms, b) && DistinctSenders(ns) && forall s :: s in ns <==> s in ms
    ensures forall r :: r in a ==> r in b
  {
    hide Disjoint, HasExtent;
    forall r | r in a ensures r in b {
      var i := FindExtent(b, r);
      assert b[i] in b && b[i] in ns;
      assert b[i].task <= r.task;
      assert r.task <= b[i].task;
    }
  }

  /** Two ordered lists of the same ranges are the same list. */
  lemma {:induction false} SortedSame(a: seq<Range>, b: seq<Range>)
    requires Sorted(a) && Sorted(b) && (forall r :: r in a ==> r in b) && (forall r :: r in b ==> r in a)
    ensures a == b
    decreases |a|
  {
    if a == [] || b == [] {
      NoneOf(a);
      NoneOf(b);
    } else {
      assert a[0] in b;
      assert b[0] in a;
      FirstIs(a, b[0]);
      FirstIs(b, a[0]);
      TailIn(a, b);
      TailIn(b, a);
      SortedSame(a[1..], b[1..]);
    }
  }

  lemma NoneOf(a: seq<Range>)
    ensures a == [] <==> forall r :: r !in a
  {
    if a != [] { assert a[0] in a; }
  }

  lemma FirstIs(a: seq<Range>, r: Range)
    requires Sorted(a) && r in a
    ensures a[0].base <= r.base && (r.base == a[0].base ==> r == a[0])
  {
    var i :| 0 <= i < |a| && a[i] == r;
    assert i > 0 ==> a[0].base < a[i].base;
  }

  lemma TailIn(a: seq<Range>, b: seq<Range>)
    requires Sorted(a) && a != [] && b != [] && a[0] == b[0] && forall r :: r in a ==> r in b
    ensures forall r :: r in a[1..] ==> r in b[1..]
  {
    forall r | r in a[1..] ensures r in b[1..] {
      var k :| 0 <= k < |a[1..]| && a[1..][k] == r;
      assert a[k + 1] == r && r.base > a[0].base && r in a && r in b;
      var i :| 0 <= i < |b| && b[i] == r;
      assert b[1..][i - 1] == r;
    }
  }
}
