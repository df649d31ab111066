/** What adding a range does to the ordered list of ranges. */
module Coalesce {
  import opened Ranges
  import opened RangeTree
  import opened Splays

  // ----- absorbing neighbours -----

  /** `absorb_left` takes in the last range when it reaches back to `base`. */
  predicate PullsLeft(rs: seq<Range>, base: nat) {
    rs != [] && rs[|rs| - 1].End() >= base
  }

  function KeptLeft(rs: seq<Range>, u: Range): seq<Range> {
    if PullsLeft(rs, u.base) then rs[..|rs| - 1] else rs
  }

  /** The grown range keeps its end: that of the range taken in is ignored. */
  function GrownLeft(rs: seq<Range>, u: Range): Range {
    if PullsLeft(rs, u.base) && rs[|rs| - 1].base < u.base
    then u.(base := rs[|rs| - 1].base, size := u.End() - rs[|rs| - 1].base)
    else u
  }

  /** How many ranges start at or before `end`. */
  function Reach(rs: seq<Range>, end: nat): (k: nat)
    ensures k <= |rs|
  {
    if rs == [] || rs[0].base > end then 0 else 1 + Reach(rs[1..], end)
  }

  function KeptRight(rs: seq<Range>, u: Range): seq<Range> { rs[Reach(rs, u.End())..] }

  function GrownRight(rs: seq<Range>, u: Range): Range {
    var k := Reach(rs, u.End());
    if k > 0 && rs[k - 1].End() > u.End() && rs[k - 1].End() >= u.base then u.(size := rs[k - 1].End() - u.base) else u
  }

  lemma {:induction false} ReachSplits(rs: seq<Range>, end: nat)
    requires Sorted(rs)
    ensures forall i :: 0 <= i < Reach(rs, end) ==> rs[i].base <= end
    ensures forall i :: Reach(rs, end) <= i < |rs| ==> rs[i].base > end
  {
    if rs != [] && rs[0].base <= end {
      ReachSplits(rs[1..], end);
      assert forall i :: 1 <= i < |rs| ==> rs[i] == rs[1..][i - 1];
    }
  }

  lemma {:induction false} ReachAll(a: seq<Range>, b: seq<Range>, end: nat)
    requires forall i :: 0 <= i < |a| ==> a[i].base <= end
    ensures Reach(a + b, end) == |a| + Reach(b, end)
  {
    if a == [] {
      assert a + b == b;
    } else {
      assert (a + b)[1..] == a[1..] + b;
      ReachAll(a[1..], b, end);
    }
  }

  lemma {:induction false} ReachStops(a: seq<Range>, b: seq<Range>, end: nat)
    requires b != [] && b[0].base > end
    ensures Reach(a + b, end) == Reach(a, end)
  {
    if a == [] {
      assert a + b == b;
    } else {
      assert (a + b)[1..] == a[1..] + b;
      ReachStops(a[1..], b, end);
    }
  }

  // ----- the tree shapes of absorption -----

  lemma PartsNormal(l: seq<Range>, r: Range, rt: seq<Range>)
    requires Normal(l + [r] + rt)
    ensures Normal(l) && Normal(rt) && r.size > 0
    ensures forall i :: 0 <= i < |l| ==> l[i].base < r.base && l[i].End() < r.base
    ensures forall i :: 0 <= i < |rt| ==> r.base < rt[i].base && r.End() < rt[i].base
  {
    var c := l + [r] + rt;
    assert c[|l|] == r;
    assert forall i :: 0 <= i < |l| ==> l[i] == c[i];
    assert forall i :: 0 <= i < |rt| ==> rt[i] == c[|l| + 1 + i];
  }

  lemma NormalHalves(l: seq<Range>, r: Range, rt: seq<Range>)
    requires Normal(l + [r] + rt)
    ensures Normal(l) && Normal(rt)
  {
    PartsNormal(l, r, rt);
  }

  /** `absorb_left` goes right past a node that ends before the range. */
  lemma LeftPast(l: seq<Range>, r: Range, rt: seq<Range>, u: Range)
    requires Normal(l + [r] + rt) && u.base > r.End()
    ensures KeptLeft(l + [r] + rt, u) == l + [r] + KeptLeft(rt, u)
    ensures GrownLeft(l + [r] + rt, u) == GrownLeft(rt, u)
  {
    var c := l + [r] + rt;
    if rt == [] {
      assert c[|c| - 1] == r;
    } else {
      assert c[|c| - 1] == rt[|rt| - 1];
      assert c[..|c| - 1] == l + [r] + rt[..|rt| - 1];
    }
  }

  lemma NothingNear(u: Range)
    ensures KeptLeft([], u) == [] && GrownLeft([], u) == u && KeptRight([], u) == [] && GrownRight([], u) == u
  {
  }

  /** It takes in a node that reaches the range; nothing is to the right of it,
      and nothing further left is reached. */
  lemma LeftTakes(l: seq<Range>, r: Range, rt: seq<Range>, u: Range)
    requires Normal(l + [r] + rt) && u.base <= r.End() && Under(l + [r] + rt, u.base)
    ensures KeptLeft(l + [r] + rt, u) == l && GrownLeft(l + [r] + rt, u) == u.(base := r.base, size := u.End() - r.base)
    ensures var u' := u.(base := r.base, size := u.End() - r.base);
      Under(l, u'.base) && KeptLeft(l, u') == l && GrownLeft(l, u') == u'
  {
    var c := l + [r] + rt;
    PartsNormal(l, r, rt);
    UnderParts(l, r, rt, u.base);
    assert c[..|c| - 1] == l;
  }

  /** `absorb_right` goes left past a node that starts after the range. */
  lemma RightPast(l: seq<Range>, r: Range, rt: seq<Range>, u: Range)
    requires Normal(l + [r] + rt) && u.End() < r.base
    ensures KeptRight(l + [r] + rt, u) == KeptRight(l, u) + [r] + rt
    ensures GrownRight(l + [r] + rt, u) == GrownRight(l, u)
  {
    hide Normal, Reach;
    var c := l + [r] + rt;
    assert c == l + ([r] + rt);
    ReachStops(l, [r] + rt, u.End());
    assert c[Reach(l, u.End())..] == l[Reach(l, u.End())..] + [r] + rt;
  }

  /** It takes in a node that the range reaches, with all to the left of it. */
  lemma RightTakes(l: seq<Range>, r: Range, rt: seq<Range>, u: Range)
    requires Normal(l + [r] + rt) && u.End() >= r.base && r.base >= u.base
    ensures var u' := u.(size := Max(u.End(), r.End()) - u.base);
      && u'.base == u.base && u'.size >= u.size
      && KeptRight(l + [r] + rt, u) == KeptRight(rt, u') && GrownRight(l + [r] + rt, u) == GrownRight(rt, u')
  {
    hide Normal, Reach;
    var c := l + [r] + rt;
    PartsNormal(l, r, rt);
    var u' := u.(size := Max(u.End(), r.End()) - u.base);
    var k := Reach(rt, u'.End());
    ReachAll(l + [r], rt, u.End());
    ReachStarts(rt, u.End());
    ReachStarts(rt, u'.End());
    assert c[|l| + 1 + k..] == rt[k..];
    assert k > 0 ==> rt[k - 1] == c[|l| + k];
    assert c[|l|] == r;
  }

  lemma ReachStarts(rs: seq<Range>, end: nat)
    ensures Reach(rs, end) > 0 <==> rs != [] && rs[0].base <= end
  {
  }

  // ----- adding a range -----

  /** The new range overlaps or borders the splayed root. */
  predicate Touching(n: Range, top: Range) {
    Hits(n, top) || (if n.base < top.base then n.End() == top.base else top.End() == n.base)
  }

  /** `union_ranges`, stored in the root's range. */
  function Joined(n: Range, top: Range): Range {
    var b := Min(n.base, top.base);
    top.(base := b, size := Max(n.End(), top.End()) - b)
  }

  /** The ranges after `n` is added, when the splay left range `k` at the root. */
  function Added(rs: seq<Range>, k: nat, n: Range): seq<Range>
    requires k < |rs|
  {
    var top := rs[k];
    var lo, hi := rs[..k], rs[k + 1..];
    if Touching(n, top) then
      var u := GrownLeft(lo, Joined(n, top));
      KeptLeft(lo, Joined(n, top)) + [GrownRight(hi, u)] + KeptRight(hi, u)
    else if n.base < top.base then
      KeptLeft(lo, n) + [GrownLeft(lo, n)] + rs[k..]
    else
      rs[..k + 1] + [GrownRight(hi, n)] + KeptRight(hi, n)
  }

  /** Range `k` is one that a splay for the new range can leave at the root. */
  ghost predicate CanAdd(rs: seq<Range>, k: nat, n: Range) {
    k < |rs| && Normal(rs) && n.size > 0 && Under(rs[..k], n.base) && Over(rs[k + 1..], n.base)
  }

  /** The root is a successor beyond the new range, and the left neighbour
      extends past the new end. */
  predicate Lossy(rs: seq<Range>, k: nat, n: Range)
    requires k < |rs|
  {
    n.End() < rs[k].base && k > 0 && n.End() < rs[k - 1].End()
  }

  /** The bytes dropped. */
  predicate Lost(rs: seq<Range>, k: nat, n: Range, x: nat)
    requires k < |rs|
  {
    Lossy(rs, k, n) && n.End() <= x < rs[k - 1].End()
  }

  lemma Ordered(rs: seq<Range>, k: nat, n: Range)
    requires CanAdd(rs, k, n)
    ensures Normal(rs[..k]) && Normal(rs[k + 1..]) && rs[k].size > 0
    ensures forall i :: 0 <= i < k ==> rs[..k][i].End() < rs[k].base && rs[..k][i].base < n.base
    ensures Over(rs[k + 1..], rs[k].End())
  {
    assert rs == rs[..k] + [rs[k]] + rs[k + 1..];
    PartsNormal(rs[..k], rs[k], rs[k + 1..]);
  }

  /** The expanded root meets the conditions of both absorptions. */
  lemma RootGrows(lo: seq<Range>, top: Range, hi: seq<Range>, n: Range)
    requires CanAdd(lo + [top] + hi, |lo|, n) && Touching(n, top)
    ensures var j := Joined(n, top); var u := GrownLeft(lo, j);
      && Normal(lo) && Under(lo, j.base) && Normal(hi) && Over(hi, u.base)
      && GrownRight(hi, u).Holds(n.base)
      && Added(lo + [top] + hi, |lo|, n) == KeptLeft(lo, j) + [GrownRight(hi, u)] + KeptRight(hi, u)
  {
    hide KeptLeft, KeptRight, Normal, GrownRight, GrownLeft;
    var rs := lo + [top] + hi;
    Ordered(rs, |lo|, n);
    assert rs[..|lo|] == lo && rs[|lo| + 1..] == hi && rs[|lo|] == top;
    GrownLeftKeeps(lo, Joined(n, top));
    GrownRightKeeps(hi, GrownLeft(lo, Joined(n, top)));
  }

  /** A new root left of the splayed one meets the condition of `absorb_left`. */
  lemma RootBefore(lo: seq<Range>, top: Range, hi: seq<Range>, n: Range)
    requires CanAdd(lo + [top] + hi, |lo|, n) && !Touching(n, top) && n.base < top.base
    ensures Normal(lo) && Under(lo, n.base) && GrownLeft(lo, n).Holds(n.base)
    ensures Added(lo + [top] + hi, |lo|, n) == KeptLeft(lo, n) + [GrownLeft(lo, n)] + ([] + [top] + hi)
  {
    hide KeptLeft, KeptRight, Normal;
    var rs := lo + [top] + hi;
    Ordered(rs, |lo|, n);
    assert rs[..|lo|] == lo && rs[|lo|..] == [] + [top] + hi;
  }

  lemma RootAfter(lo: seq<Range>, top: Range, hi: seq<Range>, n: Range)
    requires CanAdd(lo + [top] + hi, |lo|, n) && !Touching(n, top) && n.base >= top.base
    ensures n.base > top.base && Normal(hi) && Over(hi, n.base) && GrownRight(hi, n).Holds(n.base)
    ensures Added(lo + [top] + hi, |lo|, n) == (lo + [top] + []) + [GrownRight(hi, n)] + KeptRight(hi, n)
  {
    hide KeptLeft, KeptRight, Normal;
    var rs := lo + [top] + hi;
    Ordered(rs, |lo|, n);
    assert rs[|lo| + 1..] == hi && rs[..|lo| + 1] == lo + [top] + [];
  }

  lemma LeftCovers(lo: seq<Range>, u: Range, x: nat)
    requires Normal(lo) && Under(lo, u.base) && u.size > 0
    ensures Covers(KeptLeft(lo, u), x) || GrownLeft(lo, u).Holds(x) <==>
      (Covers(lo, x) || u.Holds(x)) && !(lo != [] && u.End() <= x < lo[|lo| - 1].End())
  {
    if lo != [] {
      var k := |lo| - 1;
      assert lo == lo[..k] + [lo[k]];
      CoversConcat(lo[..k], [lo[k]], x);
      CoversOne(lo[k], x);
      if x >= lo[k].base { EndsBefore(lo, x); }
    }
  }

  /** No range but the last reaches the last one's base. */
  lemma EndsBefore(lo: seq<Range>, x: nat)
    requires Normal(lo) && lo != [] && x >= lo[|lo| - 1].base
    ensures !Covers(lo[..|lo| - 1], x)
  {
  }

  /** The ranges taken in on the right reach from behind the start to their last end. */
  lemma TakenRight(hi: seq<Range>, u: Range, x: nat)
    requires Normal(hi) && Over(hi, u.base) && Reach(hi, u.End()) > 0
    ensures var k := Reach(hi, u.End());
      && (Covers(hi[..k], x) ==> u.base <= x < hi[k - 1].End())
      && (u.End() <= x < hi[k - 1].End() ==> Covers(hi[..k], x))
  {
    var k := Reach(hi, u.End());
    ReachSplits(hi, u.End());
    assert hi[..k] == hi[..k - 1] + [hi[k - 1]];
    CoversConcat(hi[..k - 1], [hi[k - 1]], x);
    CoversOne(hi[k - 1], x);
    if Covers(hi[..k - 1], x) { Within(hi, k - 1, x); }
  }

  lemma RightCovers(hi: seq<Range>, u: Range, x: nat)
    requires Normal(hi) && Over(hi, u.base) && u.size > 0
    ensures Covers(KeptRight(hi, u), x) || GrownRight(hi, u).Holds(x) <==> Covers(hi, x) || u.Holds(x)
  {
    hide Normal, Over, Covers, Reach;
    var k := Reach(hi, u.End());
    assert hi == hi[..k] + hi[k..];
    CoversConcat(hi[..k], hi[k..], x);
    if k > 0 {
      TakenRight(hi, u, x);
    } else {
      assert hi[..k] == [];
      CoversNone(x);
    }
  }

  /** All before range `k` lies below it. */
  lemma Within(rs: seq<Range>, k: nat, x: nat)
    requires Normal(rs) && k < |rs| && Covers(rs[..k], x)
    ensures rs[0].base <= x < rs[k].base
  {
    var i :| 0 <= i < |rs[..k]| && rs[..k][i].Holds(x);
    assert rs[i].End() < rs[k].base;
    assert i > 0 ==> rs[0].base < rs[i].base;
  }

  lemma JoinedHolds(n: Range, top: Range, x: nat)
    requires n.size > 0 && top.size > 0 && Touching(n, top)
    ensures Joined(n, top).Holds(x) <==> n.Holds(x) || top.Holds(x)
  {
  }

  /** Adding a range adds its bytes, and drops exactly the lost ones. */
  lemma AddedCovers(rs: seq<Range>, k: nat, n: Range, x: nat)
    requires CanAdd(rs, k, n)
    ensures Covers(Added(rs, k, n), x) <==> (Covers(rs, x) || n.Holds(x)) && !Lost(rs, k, n, x)
  {
    hide Covers, Normal, KeptLeft, KeptRight, GrownLeft, GrownRight;
    var top := rs[k];
    var lo, hi := rs[..k], rs[k + 1..];
    Ordered(rs, k, n);
    assert rs == lo + [top] + hi;
    CoversParts(lo, top, hi, x);
    if Touching(n, top) {
      var j := Joined(n, top);
      var u := GrownLeft(lo, j);
      JoinedHolds(n, top, x);
      LeftCovers(lo, j, x);
      GrownLeftKeeps(lo, j);
      RightCovers(hi, u, x);
      CoversParts(KeptLeft(lo, j), GrownRight(hi, u), KeptRight(hi, u), x);
    } else if n.base < top.base {
      LeftCovers(lo, n, x);
      assert rs[k..] == [top] + hi;
      CoversParts(KeptLeft(lo, n), GrownLeft(lo, n), rs[k..], x);
      CoversParts([], top, hi, x);
      assert [] + [top] + hi == rs[k..];
      CoversNone(x);
      if Covers(hi, x) { CoversFrom(hi, top.End(), x); }
    } else {
      RightCovers(hi, n, x);
      CoversParts(rs[..k + 1], GrownRight(hi, n), KeptRight(hi, n), x);
      CoversParts(lo, top, [], x);
      assert lo + [top] + [] == rs[..k + 1];
      CoversNone(x);
    }
  }

  lemma CoversFrom(rs: seq<Range>, e: nat, x: nat)
    requires Over(rs, e) && Covers(rs, x)
    ensures x > e
  {
  }

  lemma CoversNone(x: nat)
    ensures !Covers([], x)
  {
  }

  lemma CoversParts(a: seq<Range>, r: Range, b: seq<Range>, x: nat)
    ensures Covers(a + [r] + b, x) <==> Covers(a, x) || r.Holds(x) || Covers(b, x)
  {
    hide Covers;
    CoversConcat(a + [r], b, x);
    CoversConcat(a, [r], x);
    CoversOne(r, x);
  }

  lemma GrownLeftKeeps(lo: seq<Range>, u: Range)
    requires u.size > 0
    ensures GrownLeft(lo, u).base <= u.base && GrownLeft(lo, u).End() == u.End()
    ensures GrownLeft(lo, u) == u || (lo != [] && GrownLeft(lo, u).base == lo[|lo| - 1].base)
  {
  }

  /** Nothing is lost exactly when the add is not lossy. */
  lemma LossyExactly(rs: seq<Range>, k: nat, n: Range)
    requires CanAdd(rs, k, n)
    ensures (forall x :: Covers(Added(rs, k, n), x) <==> Covers(rs, x) || n.Holds(x)) <==> !Lossy(rs, k, n)
  {
    forall x ensures Covers(Added(rs, k, n), x) <==> (Covers(rs, x) || n.Holds(x)) && !Lost(rs, k, n, x) {
      AddedCovers(rs, k, n, x);
    }
    if Lossy(rs, k, n) {
      var x := n.End();
      assert rs[..k][k - 1].base < n.base;
      CoversAt(rs, x, k - 1);
      assert Lost(rs, k, n, x);
    }
  }

  // ----- normal form -----

  /** Three parts, each normal and each ending before the next begins. */
  lemma PartsJoin(a: seq<Range>, r: Range, b: seq<Range>)
    requires Normal(a) && Normal(b) && r.size > 0
    requires forall i :: 0 <= i < |a| ==> a[i].End() < r.base
    requires Over(b, r.End())
    ensures Normal(a + [r] + b)
  {
    var c := a + [r] + b;
    forall i, j | 0 <= i < j < |c| ensures c[i].base < c[j].base && c[i].End() < c[j].base {
      if j < |a| {
        assert c[i] == a[i] && c[j] == a[j];
      } else if j > |a| {
        assert c[j] == b[j - |a| - 1];
        assert i > |a| ==> c[i] == b[i - |a| - 1];
        assert i < |a| ==> c[i] == a[i];
      } else {
        assert c[i] == a[i];
      }
    }
    assert forall i :: |a| < i < |c| ==> c[i] == b[i - |a| - 1];
    assert forall i :: 0 <= i < |a| ==> c[i] == a[i];
  }

  lemma LeftNormal(lo: seq<Range>, u: Range)
    requires Normal(lo) && Under(lo, u.base) && u.size > 0
    ensures Normal(KeptLeft(lo, u)) && GrownLeft(lo, u).size > 0
    ensures var v := GrownLeft(lo, u); forall i :: 0 <= i < |KeptLeft(lo, u)| ==> KeptLeft(lo, u)[i].End() < v.base
  {
    if PullsLeft(lo, u.base) {
      assert forall i :: 0 <= i < |lo| - 1 ==> KeptLeft(lo, u)[i] == lo[i];
    } else if lo != [] {
      assert forall i :: 0 <= i < |lo| - 1 ==> lo[i].End() < lo[|lo| - 1].base;
    }
  }

  lemma RightNormal(hi: seq<Range>, u: Range)
    requires Normal(hi) && Over(hi, u.base) && u.size > 0
    ensures Normal(KeptRight(hi, u)) && GrownRight(hi, u).base == u.base && GrownRight(hi, u).size > 0
    ensures Over(KeptRight(hi, u), GrownRight(hi, u).End())
  {
    hide Reach, Normal, GrownRight;
    var k := Reach(hi, u.End());
    NormalSorted(hi);
    NormalFrom(hi, k);
    GrownRightKeeps(hi, u);
    assert Over(hi[k..], u.End()) by { ReachSplits(hi, u.End()); }
  }

  lemma NormalFrom(hi: seq<Range>, k: nat)
    requires Normal(hi) && k <= |hi|
    ensures Normal(hi[k..])
    ensures k > 0 ==> Over(hi[k..], hi[k - 1].End())
  {
  }

  lemma GrownRightKeeps(hi: seq<Range>, u: Range)
    requires u.size > 0
    ensures GrownRight(hi, u).base == u.base && GrownRight(hi, u).End() >= u.End() && GrownRight(hi, u).size > 0
    ensures var k := Reach(hi, u.End());
      GrownRight(hi, u).End() == u.End() || (k > 0 && GrownRight(hi, u).End() == hi[k - 1].End())
  {
    hide Reach;
  }

  /** Adding a range keeps normal form, lossy or not. */
  lemma AddedNormal(rs: seq<Range>, k: nat, n: Range)
    requires CanAdd(rs, k, n)
    ensures Normal(Added(rs, k, n))
  {
    hide KeptLeft, KeptRight, GrownLeft, GrownRight;
    var top := rs[k];
    var lo, hi := rs[..k], rs[k + 1..];
    Ordered(rs, k, n);
    if Touching(n, top) {
      var j := Joined(n, top);
      var u := GrownLeft(lo, j);
      LeftNormal(lo, j);
      GrownLeftKeeps(lo, j);
      RightNormal(hi, u);
      PartsJoin(KeptLeft(lo, j), GrownRight(hi, u), KeptRight(hi, u));
    } else if n.base < top.base {
      LeftNormal(lo, n);
      GrownLeftKeeps(lo, n);
      PartsJoin(KeptLeft(lo, n), GrownLeft(lo, n), rs[k..]);
    } else {
      RightNormal(hi, n);
      PartsJoin(rs[..k + 1], GrownRight(hi, n), KeptRight(hi, n));
    }
  }

  // ----- the tree after adding -----

  /** Absorbing keeps the record and takes ranges away only. */
  lemma RecordsKept(rs: seq<Range>, u: Range)
    ensures GrownLeft(rs, u).rec == GrownRight(rs, u).rec == u.rec
    ensures GrownLeft(rs, u).task == GrownRight(rs, u).task == u.task
    ensures (forall r :: r in KeptLeft(rs, u) ==> r in rs) && (forall r :: r in KeptRight(rs, u) ==> r in rs)
  {
  }

  lemma OneNew(l: seq<Range>, r: Range, rt: seq<Range>, rs: seq<Range>)
    requires (forall a :: a in l ==> a in rs) && (forall a :: a in rt ==> a in rs)
    ensures var out := l + [r] + rt;
      |l| < |out| && out[|l|] == r && forall i :: 0 <= i < |out| && i != |l| ==> out[i] in rs
  {
    var out := l + [r] + rt;
    forall i | 0 <= i < |out| && i != |l| ensures out[i] in rs {
      if i < |l| { assert out[i] == l[i]; } else { assert out[i] == rt[i - |l| - 1]; }
    }
  }

  /** After an addition the range that holds the new start carries the record of the
      splayed root when that was expanded, and the new record otherwise; every other
      range is an old one. */
  lemma AddedRecords(rs: seq<Range>, k: nat, n: Range) returns (j: nat)
    requires k < |rs| && CanAdd(rs, k, n)
    ensures var out := Added(rs, k, n); var keeps := if Touching(n, rs[k]) then rs[k] else n;
      && j < |out| && out[j].Holds(n.base) && out[j].rec == keeps.rec && out[j].task == keeps.task
      && (forall i :: 0 <= i < |out| && i != j ==> out[i] in rs)
  {
    hide KeptLeft, KeptRight, GrownLeft, GrownRight, Added, CanAdd, Touching;
    var top, lo, hi := rs[k], rs[..k], rs[k + 1..];
    assert rs == lo + [top] + hi;
    if Touching(n, top) {
      var e := Joined(n, top);
      var u := GrownLeft(lo, e);
      RootGrows(lo, top, hi, n);
      RecordsKept(lo, e);
      RecordsKept(hi, u);
      OneNew(KeptLeft(lo, e), GrownRight(hi, u), KeptRight(hi, u), rs);
      j := |KeptLeft(lo, e)|;
    } else if n.base < top.base {
      RootBefore(lo, top, hi, n);
      RecordsKept(lo, n);
      OneNew(KeptLeft(lo, n), GrownLeft(lo, n), [] + [top] + hi, rs);
      j := |KeptLeft(lo, n)|;
    } else {
      RootAfter(lo, top, hi, n);
      RecordsKept(hi, n);
      OneNew(lo + [top] + [], GrownRight(hi, n), KeptRight(hi, n), rs);
      j := |lo| + 1;
    }
  }

  /** What `absorb_left` leaves of a tree. */
  function AbsorbedLeft(t: Tree, base: nat): Tree {
    if t.Leaf? then Leaf
    else if base > t.r.End() then Node(t.l, t.p, t.r, AbsorbedLeft(t.rt, base))
    else AbsorbedLeft(t.l, Min(t.r.base, base))
  }

  /** What `absorb_right` leaves of a tree. */
  function AbsorbedRight(t: Tree, end: nat): Tree {
    if t.Leaf? then Leaf
    else if end < t.r.base then Node(AbsorbedRight(t.l, end), t.p, t.r, t.rt)
    else AbsorbedRight(t.rt, Max(end, t.r.End()))
  }

  /** The splayed root `h` is expanded over `r`. */
  function ExpandedTree(h: Tree, r: Range): Tree
    requires h.Node?
  {
    var j := Joined(r, h.r);
    var u := GrownLeft(Contents(h.l), j);
    Node(AbsorbedLeft(h.l, j.base), h.p, GrownRight(Contents(h.rt), u), AbsorbedRight(h.rt, u.End()))
  }

  /** Node `n` with range `r` becomes the root, before or after the splayed root `h`. */
  function RootedTree(h: Tree, n: nat, r: Range): Tree
    requires h.Node?
  {
    if r.base < h.r.base then
      Node(AbsorbedLeft(h.l, r.base), n, GrownLeft(Contents(h.l), r), Node(Leaf, h.p, h.r, h.rt))
    else
      Node(Node(h.l, h.p, h.r, Leaf), n, GrownRight(Contents(h.rt), r), AbsorbedRight(h.rt, r.End()))
  }

  /** The tree after range `r` is added, with `n` for a new node. */
  function AddedTree(t: Tree, n: nat, r: Range): Tree {
    if t.Leaf? then Node(Leaf, n, r, Leaf)
    else
      var h := Splayed(t, r.base);
      if h.Leaf? then h
      else if Touching(r, h.r) then ExpandedTree(h, r)
      else RootedTree(h, n, r)
  }
}
