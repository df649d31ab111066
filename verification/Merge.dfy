/** Checking, recording and committing the tasks of a group. */
module Merge {
  import opened Ranges
  import opened RangeTree
  import opened Splays
  import opened Scans
  import opened SetOps
  import opened RangeMaps
  import opened TaskRanges
  import opened Records
  import opened Conflicts
  import opened Patches
  import opened Tasks

  /** Ranges as a task's records, without data. */
  function Tagged(rs: seq<Range>, task: nat): seq<Range> {
    seq(|rs|, i requires 0 <= i < |rs| => Range(rs[i].base, rs[i].size, [], task))
  }

  lemma TaggedNext(rs: seq<Range>, task: nat, i: nat)
    requires i < |rs|
    ensures Tagged(rs[..i + 1], task) == Tagged(rs[..i], task) + [Range(rs[i].base, rs[i].size, [], task)]
    ensures rs[..i + 1] == rs[..i] + [rs[i]]
    ensures |Tagged(rs, task)| == |rs| && Tagged(rs[..|rs|], task) == Tagged(rs, task)
  {
    assert rs[..|rs|] == rs;
  }

  lemma TidyPrefix(ns: seq<Range>, ms: seq<Range>, task: nat, i: nat)
    requires i < |ms| && Tidy(ns + Tagged(ms, task))
    ensures Tidy(ns + Tagged(ms[..i + 1], task))
  {
    var a, b := ns + Tagged(ms, task), ns + Tagged(ms[..i + 1], task);
    assert forall j :: 0 <= j < |b| ==> b[j] == a[j];
  }

  /** `union_add_range` for each range of a write map, for one task. Ranges that
      fit what other tasks wrote always go in. */
  method UnionWrites(union: RangeMap, writes: RangeMap, task: nat, ghost ns: seq<Range>) returns (ok: bool)
    requires union.Valid() && Sorted(union.Ranges())
    requires writes.Valid() && Sorted(writes.Ranges()) && writes != union
    modifies union
    ensures ok ==> union.Valid() && Sorted(union.Ranges())
    ensures ok ==>
      forall x: nat :: Covers(union.Ranges(), x) <==> Covers(old(union.Ranges()), x) || Covers(writes.Ranges(), x)
    ensures Stored(ns, old(union.Ranges())) && Tidy(ns + Tagged(writes.Ranges(), task)) ==>
      ok && Stored(ns + Tagged(writes.Ranges(), task), union.Ranges())
  {
    hide Spells, Apart, Nodes, Contents, Sorted, Disjoint, Covers, Stored, Tidy, Recorded, Tagged;
    ghost var us, ws := union.Ranges(), writes.Ranges();
    ghost var tidy := Stored(ns, us) && Tidy(ns + Tagged(ws, task));
    var ranges := writes.ToArray();
    forall x: nat ensures !Covers([], x) { Coalesce.CoversNone(x); }
    NoTags(ns, ws, task);
    for i := 0 to |ranges|
      invariant writes.Valid() && writes.Ranges() == ws
      invariant union.Valid() && Sorted(union.Ranges())
      invariant forall x: nat :: Covers(union.Ranges(), x) <==> Covers(us, x) || Covers(ws[..i], x)
      invariant tidy ==> Stored(ns + Tagged(ws[..i], task), union.Ranges())
    {
      ghost var rs, n := union.Ranges(), Range(ranges[i].base, ranges[i].size, [], task);
      SizedAt(ws, i);
      var o, _, k := AddRangeFromTask(union, ranges[i].base, ranges[i].size, [], task);
      TaggedNext(ws, task, i);
      if tidy {
        TidyPrefix(ns, ws, task, i);
        assert ns + (Tagged(ws[..i], task) + [n]) == (ns + Tagged(ws[..i], task)) + [n];
        StoredStep(ns + Tagged(ws[..i], task), n, rs, o, k, union.Ranges());
      }
      if !o.Done() { return false; }
      RecordedOrder(rs, n, o, k, union.Ranges());
      forall x: nat ensures Covers(union.Ranges(), x) <==> Covers(us, x) || Covers(ws[..i + 1], x) {
        RecordedCovers(rs, n, o, k, union.Ranges(), x);
        CoversAppend(ws[..i], ranges[i], x);
      }
    }
    assert ws[..|ws|] == ws;
    ok := true;
  }

  lemma SizedAt(rs: seq<Range>, i: nat)
    requires Sorted(rs) && i < |rs|
    ensures rs[i].size > 0
  {
  }

  lemma NoTags(ns: seq<Range>, ws: seq<Range>, task: nat)
    ensures ns + Tagged(ws[..0], task) == ns
  {
  }

  /** `ppr_is_correct`: the reads are checked, then the writes recorded. */
  method PprIsCorrect(accesses: RangeMap, writes: RangeMap, union: RangeMap, received: RangeMap, task: nat,
      ghost ns: seq<Range>)
    returns (passed: bool)
    requires accesses.Valid() && Sorted(accesses.Ranges()) && writes.Valid() && Sorted(writes.Ranges())
    requires union.Valid() && Disjoint(union.Ranges()) && received.Valid() && Disjoint(received.Ranges())
    requires union !in {accesses, writes, received} && received !in {accesses, writes}
    modifies union, received`nodes, received`root, received`tree
    ensures FirstConflict(accesses.Ranges(), old(union.Ranges()), old(received.Ranges())) != 0 ==>
      !passed && union.Valid() && union.Ranges() == old(union.Ranges())
    ensures received.Valid() && received.Ranges() == old(received.Ranges())
    ensures passed ==> union.Valid() && Sorted(union.Ranges())
    ensures passed ==>
      forall x: nat :: Covers(union.Ranges(), x) <==> Covers(old(union.Ranges()), x) || Covers(writes.Ranges(), x)
    ensures Stored(ns, old(union.Ranges())) && Tidy(ns + Tagged(writes.Ranges(), task)) ==>
      (passed <==> FirstConflict(accesses.Ranges(), old(union.Ranges()), old(received.Ranges())) == 0)
      && (passed ==> Stored(ns + Tagged(writes.Ranges(), task), union.Ranges()))
  {
    hide Spells, Apart, Nodes, Contents, Sorted, Disjoint, Covers, Stored, Tidy, Tagged, FirstConflict;
    DisjointSorted(union.Ranges());
    var conflict := CheckForOverlap(accesses, union, received);
    if conflict != 0 { return false; }
    passed := UnionWrites(union, writes, task, ns);
  }

  // ----- commit -----

  /** Patches applied one after another. */
  function AppliedAll(m: Memory, ps: seq<seq<Range>>): Memory {
    if ps == [] then m else Applied(AppliedAll(m, ps[..|ps| - 1]), ps[|ps| - 1])
  }

  /** What the patches hold. */
  ghost function Held(patches: seq<RangeMap>): seq<seq<Range>>
    reads patches
  {
    seq(|patches|, i requires 0 <= i < |patches| reads patches => patches[i].Ranges())
  }

  /** `ppr_group_commit`: the patches of tasks 0 to `last`, in order. */
  method GroupCommit(patches: seq<RangeMap>, last: nat, mem: Memory) returns (mem': Memory)
    requires last < |patches|
    requires forall i :: 0 <= i <= last ==> patches[i].Valid() && Backed(patches[i].Ranges())
    requires forall i, j :: 0 <= i < j <= last ==> patches[i] != patches[j]
    modifies patches
    ensures mem' == AppliedAll(mem, old(Held(patches[..last + 1])))
    ensures forall i :: 0 <= i <= last ==> patches[i].Valid() && patches[i].Ranges() == []
  {
    hide Spells, Apart, Nodes, Contents, Backed, RangeMap.Valid, RangeMap.Ranges, Applied;
    ghost var ps := Held(patches[..last + 1]);
    mem' := mem;
    for i := 0 to last + 1
      invariant forall j :: 0 <= j < i ==> patches[j].Valid() && patches[j].Ranges() == []
      invariant forall j :: i <= j <= last ==>
        patches[j].Valid() && Backed(patches[j].Ranges()) && patches[j].Ranges() == ps[j]
      invariant mem' == AppliedAll(mem, ps[..i])
    {
      mem' := ApplyPatch(patches[i], mem');
      assert ps[..i + 1][..i] == ps[..i];
    }
    assert ps[..last + 1] == ps;
    for i := 0 to last + 1
      invariant forall j :: 0 <= j <= last ==> patches[j].Valid() && patches[j].Ranges() == []
    {
      patches[i].Clear();
    }
  }

  // ----- a whole group -----

  /** The write ranges of the first `k` tasks, each with its task. */
  ghost function AllStores(ts: seq<Task>, m: Memory, k: nat): seq<Range>
    requires k <= |ts|
  {
    if k == 0 then [] else AllStores(ts, m, k - 1) + Tagged(ts[k - 1](m).stores, k - 1)
  }

  lemma {:induction false} StoresPrefix(ts: seq<Task>, m: Memory, k: nat, n: nat)
    requires k <= n <= |ts|
    ensures |AllStores(ts, m, k)| <= |AllStores(ts, m, n)|
    ensures AllStores(ts, m, n)[..|AllStores(ts, m, k)|] == AllStores(ts, m, k)
    decreases n
  {
    if k < n { StoresPrefix(ts, m, k, n - 1); }
  }

  lemma TidyStores(ts: seq<Task>, m: Memory, k: nat)
    requires k <= |ts| && Tidy(AllStores(ts, m, |ts|))
    ensures Tidy(AllStores(ts, m, k))
  {
    StoresPrefix(ts, m, k, |ts|);
    var a, b := AllStores(ts, m, |ts|), AllStores(ts, m, k);
    assert forall i :: 0 <= i < |b| ==> b[i] == a[i];
  }

  /** Some task before `k` wrote the byte. */
  ghost predicate WrittenBy(ts: seq<Task>, m: Memory, k: nat, x: nat)
    requires k <= |ts|
  {
    exists i :: 0 <= i < k && Covers(ts[i](m).stores, x)
  }

  lemma WrittenNext(ts: seq<Task>, m: Memory, k: nat, x: nat)
    requires k < |ts|
    ensures WrittenBy(ts, m, k + 1, x) <==> WrittenBy(ts, m, k, x) || Covers(ts[k](m).stores, x)
  {
  }

  /** What the check of task `k` decides. */
  lemma NextIndependent(ts: seq<Task>, m: Memory, k: nat, union: seq<Range>)
    requires k < |ts| && Disjoint(union) && Sorted(ts[k](m).loads) && (forall r :: r in ts[k](m).loads ==> r.base > 0)
    requires forall x: nat :: Covers(union, x) <==> WrittenBy(ts, m, k, x)
    requires Independent(ts[..k], m)
    ensures FirstConflict(ts[k](m).loads, union, []) == 0 <==> Independent(ts[..k + 1], m)
  {
    hide Disjoint, Sorted, FirstConflict;
    var loads := ts[k](m).loads;
    CheckExactly(loads, union);
    ZeroUncovered(loads);
    var us := ts[..k + 1];
    if !Shared(loads, union) {
      forall i, j | 0 <= i < j < |us| ensures NoShare(us[i](m).stores, us[j](m).loads) {
        if j < k {
          assert us[i] == ts[..k][i] && us[j] == ts[..k][j];
        } else {
          assert forall x: nat :: Covers(ts[i](m).stores, x) ==> WrittenBy(ts, m, k, x);
        }
      }
    }
    if Shared(loads, union) {
      var x: nat :| Covers(loads, x) && Covers(union, x);
      var i :| 0 <= i < k && Covers(ts[i](m).stores, x);
      SharedDependent(us, m, i, k, x);
    }
  }

  lemma ZeroUncovered(rs: seq<Range>)
    requires forall r :: r in rs ==> r.base > 0
    ensures !Covers(rs, 0)
  {
    forall i | 0 <= i < |rs| ensures !rs[i].Holds(0) { assert rs[i] in rs; }
  }

  lemma SharedDependent(ts: seq<Task>, m: Memory, i: nat, j: nat, x: nat)
    requires i < j < |ts| && Covers(ts[i](m).stores, x) && Covers(ts[j](m).loads, x)
    ensures !Independent(ts, m)
  {
    assert !NoShare(ts[i](m).stores, ts[j](m).loads);
  }

  /** A group that fails anywhere is not independent. */
  lemma PrefixDependent(ts: seq<Task>, m: Memory, k: nat)
    requires k <= |ts| && !Independent(ts[..k], m)
    ensures !Independent(ts, m)
  {
    var us := ts[..k];
    var i, j :| 0 <= i < j < |us| && !NoShare(us[i](m).stores, us[j](m).loads);
    assert us[i] == ts[i] && us[j] == ts[j];
  }

  lemma {:induction false} PatchesCommit(ts: seq<Task>, m: Memory, onto: Memory, ps: seq<seq<Range>>)
    requires |ps| == |ts| && forall i :: 0 <= i < |ts| ==> ps[i] == PatchOf(ts[i], m)
    ensures AppliedAll(onto, ps) == Committed(ts, m, onto)
  {
    if ts != [] { PatchesCommit(ts[..|ts| - 1], m, onto, ps[..|ps| - 1]); }
  }

  /** The group that shrank to its last task: its slot is filled too. */
  lemma LastSlotFilled(ts: seq<Task>, m: Memory, ps: seq<seq<Range>>, x: nat)
    requires ts != [] && AllFaithful(ts) && Independent(ts, m) && |ps| == |ts|
    requires forall i :: 0 <= i < |ts| ==> ps[i] == PatchOf(ts[i], m)
    ensures AppliedAll(ts[|ts| - 1](m).out, ps)(x) == Sequential(ts, m)(x)
  {
    hide PatchOf, Committed, Applied, AppliedAll, AllFaithful, Independent, Sequential;
    PatchesCommit(ts, m, ts[|ts| - 1](m).out, ps);
    LastPublished(ts, m, x);
  }

  /** The full group: the last task has not published, and applies the patches to its
      own memory. What it commits is the sequential result exactly when whatever its
      slot holds agrees with what the tasks wrote and, outside it, the latest patch
      agrees on bytes that the last task wrote over an earlier one. */
  lemma LastSlotExactly(ts: seq<Task>, m: Memory, ps: seq<seq<Range>>)
    requires ts != [] && AllFaithful(ts) && Independent(ts, m) && |ps| == |ts|
    requires Disjoint(ps[|ts| - 1]) && Backed(ps[|ts| - 1])
    requires forall i :: 0 <= i < |ts| - 1 ==> ps[i] == PatchOf(ts[i], m)
    ensures var last := ts[|ts| - 1](m).out;
      (forall x: nat :: AppliedAll(last, ps)(x) == Sequential(ts, m)(x)) <==> SlotAgrees(ts, m, ps[|ts| - 1])
  {
    hide PatchOf, Committed, Applied, AllFaithful, Independent, SlotAgrees, Sequential;
    var k := |ts| - 1;
    PatchesCommit(ts[..k], m, ts[k](m).out, ps[..k]);
    LeftoverExactly(ts, m, ps[k]);
  }

  /** With an empty slot only the overwritten bytes matter. */
  lemma LastSlotEmpty(ts: seq<Task>, m: Memory, ps: seq<seq<Range>>)
    requires ts != [] && AllFaithful(ts) && Independent(ts, m) && |ps| == |ts| && ps[|ts| - 1] == []
    requires forall i :: 0 <= i < |ts| - 1 ==> ps[i] == PatchOf(ts[i], m)
    ensures var last := ts[|ts| - 1](m).out;
      (forall x: nat :: AppliedAll(last, ps)(x) == Sequential(ts, m)(x)) <==> LastAgrees(ts, m)
    ensures SlotAgrees(ts, m, []) <==> LastAgrees(ts, m)
  {
    EmptySlot(ts, m);
    hide PatchOf, Committed, Applied, AppliedAll, AllFaithful, Independent, LastAgrees, SlotAgrees, Sequential;
    LastSlotExactly(ts, m, ps);
  }

  lemma EmptySlot(ts: seq<Task>, m: Memory)
    requires ts != []
    ensures SlotAgrees(ts, m, []) <==> LastAgrees(ts, m)
  {
    forall x: nat ensures SlotAgreesAt(ts, m, [], x) <==> AgreesAt(ts, m, x) { Coalesce.CoversNone(x); }
    hide SlotAgreesAt, AgreesAt;
    if SlotAgrees(ts, m, []) {
      forall x: nat ensures AgreesAt(ts, m, x) { assert SlotAgreesAt(ts, m, [], x); }
    }
    if LastAgrees(ts, m) {
      forall x: nat ensures SlotAgreesAt(ts, m, [], x) { assert AgreesAt(ts, m, x); }
    }
  }

  /** What each task process holds at its end. */
  ghost predicate Ended(t: Task, m: Memory, accesses: RangeMap, writes: RangeMap, out: Memory)
    reads accesses, writes
  {
    && accesses.Valid() && Normal(accesses.Ranges()) && writes.Valid() && Normal(writes.Ranges())
    && accesses.Ranges() == t(m).loads && writes.Ranges() == t(m).stores && out == t(m).out
    && forall r :: r in t(m).loads ==> r.base > 0
  }

  /** Tasks that all started from `mem` check and publish in order, until one fails;
      the last one that passed commits the group to the memory it left. The whole
      group commits exactly when no task read what an earlier one wrote; otherwise
      its longest prefix of which that is true; and memory is as if the committed
      tasks had run one after another. */
  method CommitGroup(loads: seq<RangeMap>, stores: seq<RangeMap>, outs: seq<Memory>,
      ghost mem: Memory, ghost ts: seq<Task>)
    returns (done: nat, mem': Memory)
    requires |loads| == |stores| == |outs| == |ts| > 0 && AllFaithful(ts)
    requires forall i :: 0 <= i < |ts| ==> Ended(ts[i], mem, loads[i], stores[i], outs[i])
    requires Tidy(AllStores(ts, mem, |ts|))
    ensures 1 <= done <= |ts| && Independent(ts[..done], mem)
    ensures done < |ts| ==> !Independent(ts[..done + 1], mem)
    ensures done == |ts| <==> Independent(ts, mem)
    ensures forall x: nat :: mem'(x) == Sequential(ts[..done], mem)(x)
  {
    hide Spells, Apart, Nodes, Contents, Sorted, Disjoint, Normal, Covers, Stored, Tidy, Tagged, FirstConflict,
      RangeMap.Valid, RangeMap.Ranges;
    hide AllFaithful, Independent, Sequential, Snapshot, Backed, AllStores, WrittenBy, PatchOf, Ended, Committed,
      AppliedAll, Applied;
    var union := new RangeMap();
    var received := new RangeMap();
    var patches: seq<RangeMap> := [];
    GroupStart(ts, mem);
    done := 0;
    while done < |stores|
      invariant done <= |ts|
      invariant fresh(union) && fresh(received) && union != received
      invariant |patches| == done
      invariant union.Valid() && Stored(AllStores(ts, mem, done), union.Ranges())
      invariant received.Valid() && received.Ranges() == []
      invariant forall x: nat :: Covers(union.Ranges(), x) <==> WrittenBy(ts, mem, done, x)
      invariant Independent(ts[..done], mem)
      invariant forall i :: 0 <= i < done ==> fresh(patches[i]) && patches[i] != union && patches[i] != received
      invariant forall i :: 0 <= i < done ==> patches[i].Valid() && patches[i].Ranges() == PatchOf(ts[i], mem)
      invariant forall i, j :: 0 <= i < j < done ==> patches[i] != patches[j]
    {
      ghost var us := union.Ranges();
      EndedMeans(ts[done], mem, loads[done], stores[done], outs[done]);
      StoredDisjoint(AllStores(ts, mem, done), us);
      TidyNext(ts, mem, done);
      NextIndependent(ts, mem, done, us);
      var passed := PprIsCorrect(loads[done], stores[done], union, received, done, AllStores(ts, mem, done));
      if !passed { break; }
      forall x: nat ensures Covers(union.Ranges(), x) <==> WrittenBy(ts, mem, done + 1, x) {
        WrittenNext(ts, mem, done, x);
      }
      var patch := CreatePatch(stores[done], outs[done]);
      patches, done := patches + [patch], done + 1;
    }
    FirstPasses(ts, mem);
    if done < |ts| { PrefixDependent(ts, mem, done + 1); }
    assert ts[..|ts|] == ts;
    EndedMeans(ts[done - 1], mem, loads[done - 1], stores[done - 1], outs[done - 1]);
    PrefixFaithful(ts, done);
    mem' := CommitPatches(patches, outs[done - 1], mem, ts[..done]);
  }

  lemma PrefixFaithful(ts: seq<Task>, k: nat)
    requires AllFaithful(ts) && k <= |ts|
    ensures AllFaithful(ts[..k])
  {
  }

  /** The first task never fails. */
  lemma FirstPasses(ts: seq<Task>, m: Memory)
    requires ts != []
    ensures Independent(ts[..1], m)
  {
  }

  /** The group commit at the end of `CommitGroup`. */
  method CommitPatches(patches: seq<RangeMap>, last: Memory, ghost mem: Memory, ghost ts: seq<Task>)
    returns (mem': Memory)
    requires |patches| == |ts| > 0 && AllFaithful(ts) && Independent(ts, mem) && last == ts[|ts| - 1](mem).out
    requires forall i :: 0 <= i < |ts| ==> patches[i].Valid() && patches[i].Ranges() == PatchOf(ts[i], mem)
    requires forall i, j :: 0 <= i < j < |ts| ==> patches[i] != patches[j]
    modifies patches
    ensures forall x: nat :: mem'(x) == Sequential(ts, mem)(x)
  {
    hide RangeMap.Valid, RangeMap.Ranges, AllFaithful, Independent, Sequential, Snapshot, Backed, PatchOf, Committed,
      AppliedAll, Applied;
    forall i | 0 <= i < |patches| ensures Backed(PatchOf(ts[i], mem)) { PatchBacked(ts[i], mem); }
    assert patches[..|patches|] == patches;
    PatchesCommit(ts, mem, last, Held(patches));
    forall x: nat ensures Committed(ts, mem, last)(x) == Sequential(ts, mem)(x) { LastPublished(ts, mem, x); }
    mem' := GroupCommit(patches, |patches| - 1, last);
  }

  lemma GroupStart(ts: seq<Task>, m: Memory)
    ensures Stored(AllStores(ts, m, 0), []) && Independent(ts[..0], m)
    ensures forall x: nat :: Covers([], x) <==> WrittenBy(ts, m, 0, x)
    ensures Disjoint([]) && Normal([])
  {
  }

  lemma EndedMeans(t: Task, m: Memory, accesses: RangeMap, writes: RangeMap, out: Memory)
    requires Ended(t, m, accesses, writes, out)
    ensures accesses.Valid() && Normal(accesses.Ranges()) && writes.Valid() && Normal(writes.Ranges())
    ensures Sorted(accesses.Ranges()) && Sorted(writes.Ranges())
    ensures accesses.Ranges() == t(m).loads && writes.Ranges() == t(m).stores && out == t(m).out
    ensures forall r :: r in t(m).loads ==> r.base > 0
    ensures Snapshot(writes.Ranges(), out) == PatchOf(t, m)
  {
    NormalSorted(accesses.Ranges());
    NormalSorted(writes.Ranges());
  }

  lemma StoredDisjoint(ns: seq<Range>, rs: seq<Range>)
    requires Stored(ns, rs)
    ensures Disjoint(rs)
  {
  }

  lemma TidyNext(ts: seq<Task>, m: Memory, k: nat)
    requires k < |ts| && Tidy(AllStores(ts, m, |ts|))
    ensures AllStores(ts, m, k + 1) == AllStores(ts, m, k) + Tagged(ts[k](m).stores, k)
    ensures Tidy(AllStores(ts, m, k + 1))
  {
    TidyStores(ts, m, k + 1);
  }

  lemma PatchBacked(t: Task, m: Memory)
    ensures Backed(PatchOf(t, m))
  {
    SnapshotAt(t(m).stores, t(m).out);
  }
}
