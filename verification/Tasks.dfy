/** What speculative tasks mean, and when committing their patches in order is
    the same as running them in order. */
module Tasks {
  import opened Ranges
  import opened Patches

  /** What one run of a task recorded, and the memory it left. */
  datatype Effect = Effect(loads: seq<Range>, stores: seq<Range>, out: Memory)

  type Task = Memory -> Effect

  ghost predicate Agree(a: Memory, b: Memory, rs: seq<Range>) { forall x: nat :: Covers(rs, x) ==> a(x) == b(x) }

  ghost predicate ChangesOnly(m: Memory, e: Effect) { forall x: nat :: !Covers(e.stores, x) ==> e.out(x) == m(x) }

  /** A task depends only on the reads it recorded and changes only the writes
      it recorded, wherever it starts. */
  ghost predicate Faithful(t: Task) {
    && (forall m :: Normal(t(m).stores) && ChangesOnly(m, t(m)))
    && (forall m, m' :: Agree(m, m', t(m).loads) ==>
         t(m').loads == t(m).loads && t(m').stores == t(m).stores && Agree(t(m).out, t(m').out, t(m).stores))
  }

  ghost predicate AllFaithful(ts: seq<Task>) { forall i :: 0 <= i < |ts| ==> Faithful(ts[i]) }

  /** The tasks one after another. */
  function Sequential(ts: seq<Task>, m: Memory): Memory {
    if ts == [] then m else ts[|ts| - 1](Sequential(ts[..|ts| - 1], m)).out
  }

  /** The patch of a task that started from `m`. */
  function PatchOf(t: Task, m: Memory): seq<Range> { Snapshot(t(m).stores, t(m).out) }

  /** The patches of tasks that all started from `m`, applied in order. */
  function Committed(ts: seq<Task>, m: Memory, onto: Memory): Memory {
    if ts == [] then onto
    else Applied(Committed(ts[..|ts| - 1], m, onto), PatchOf(ts[|ts| - 1], m))
  }

  /** No task read a byte that an earlier one wrote. */
  ghost predicate Independent(ts: seq<Task>, m: Memory) {
    forall i, j :: 0 <= i < j < |ts| ==> NoShare(ts[i](m).stores, ts[j](m).loads)
  }

  ghost predicate NoShare(a: seq<Range>, b: seq<Range>) { forall x: nat :: Covers(b, x) ==> !Covers(a, x) }

  /** The last task that wrote the byte; the length if none did. */
  ghost function LastWriter(ts: seq<Task>, m: Memory, x: nat): (i: nat)
    ensures i <= |ts|
    ensures i < |ts| ==> Covers(ts[i](m).stores, x)
    ensures forall j :: 0 <= j < |ts| && (i == |ts| || i < j) ==> !Covers(ts[j](m).stores, x)
  {
    if ts == [] then 0
    else if Covers(ts[|ts| - 1](m).stores, x) then |ts| - 1
    else
      var i := LastWriter(ts[..|ts| - 1], m, x);
      if i == |ts| - 1 then |ts| else i
  }

  /** A committed byte is the one the last writer left. */
  lemma {:induction false} CommittedByte(ts: seq<Task>, m: Memory, onto: Memory, x: nat)
    requires AllFaithful(ts)
    ensures var i := LastWriter(ts, m, x);
      Committed(ts, m, onto)(x) == if i == |ts| then onto(x) else ts[i](m).out(x)
  {
    if ts != [] {
      var k := |ts| - 1;
      assert Faithful(ts[k]);
      NormalSorted(ts[k](m).stores);
      PatchRoundTrip(ts[k](m).stores, ts[k](m).out, Committed(ts[..k], m, onto), x);
      CommittedByte(ts[..k], m, onto, x);
    }
  }

  lemma WholePrefix(ts: seq<Task>, k: nat)
    requires k < |ts| && AllFaithful(ts)
    ensures AllFaithful(ts[..k]) && Faithful(ts[k]) && (forall m :: Independent(ts, m) ==> Independent(ts[..k], m))
  {
  }

  /** The task that runs last meets the same reads in both memories, so it does
      there what it did from the start memory. */
  lemma ReadsUntouched(ts: seq<Task>, m: Memory, s: Memory)
    requires ts != [] && AllFaithful(ts) && Independent(ts, m)
    requires forall x: nat :: s(x) == Committed(ts[..|ts| - 1], m, m)(x)
    ensures Agree(m, s, ts[|ts| - 1](m).loads)
  {
    var k := |ts| - 1;
    WholePrefix(ts, k);
    forall x: nat | Covers(ts[k](m).loads, x) ensures m(x) == s(x) {
      CommittedByte(ts[..k], m, m, x);
      var i := LastWriter(ts[..k], m, x);
      assert i < k ==> NoShare(ts[i](m).stores, ts[k](m).loads);
    }
  }

  /** Group commit is sequential execution: whatever the tasks wrote over each
      other, or over what an earlier one had read. */
  lemma {:induction false} GroupCommitIsSequential(ts: seq<Task>, m: Memory, x: nat)
    requires AllFaithful(ts) && Independent(ts, m)
    ensures Committed(ts, m, m)(x) == Sequential(ts, m)(x)
  {
    if ts != [] {
      var k := |ts| - 1;
      var t, s := ts[k], Sequential(ts[..k], m);
      WholePrefix(ts, k);
      forall y: nat ensures s(y) == Committed(ts[..k], m, m)(y) { GroupCommitIsSequential(ts[..k], m, y); }
      ReadsUntouched(ts, m, s);
      NormalSorted(t(m).stores);
      PatchRoundTrip(t(m).stores, t(m).out, Committed(ts[..k], m, m), x);
      assert Agree(t(m).out, t(s).out, t(m).stores) && t(s).stores == t(m).stores;
      assert ChangesOnly(s, t(s));
    }
  }

  /** The last task of a full group has no patch: the earlier ones are applied
      to the memory it left. */
  function CommittedByLast(ts: seq<Task>, m: Memory): Memory
    requires ts != []
  {
    Committed(ts[..|ts| - 1], m, ts[|ts| - 1](m).out)
  }

  /** If the last task and an earlier one wrote the byte, the latest earlier patch
      holds the last task's value. */
  ghost predicate AgreesAt(ts: seq<Task>, m: Memory, x: nat)
    requires ts != []
  {
    var k := |ts| - 1;
    var i := LastWriter(ts[..k], m, x);
    Covers(ts[k](m).stores, x) && i < k ==> ts[i](m).out(x) == ts[k](m).out(x)
  }

  ghost predicate LastAgrees(ts: seq<Task>, m: Memory)
    requires ts != []
  {
    forall x: nat :: AgreesAt(ts, m, x)
  }

  /** The byte its last writer left, or the start memory's. */
  ghost function Written(ts: seq<Task>, m: Memory, x: nat): Byte {
    var i := LastWriter(ts, m, x);
    if i == |ts| then m(x) else ts[i](m).out(x)
  }

  ghost predicate SlotAgreesAt(ts: seq<Task>, m: Memory, slot: seq<Range>, x: nat)
    requires ts != []
  {
    if Covers(slot, x) then Applied(m, slot)(x) == Written(ts, m, x) else AgreesAt(ts, m, x)
  }

  /** The last slot, whatever it holds, agrees with what the tasks wrote; outside it
      the overwritten bytes agree. */
  ghost predicate SlotAgrees(ts: seq<Task>, m: Memory, slot: seq<Range>)
    requires ts != []
  {
    forall x: nat :: SlotAgreesAt(ts, m, slot, x)
  }

  lemma CommittedByLastByte(ts: seq<Task>, m: Memory, x: nat)
    requires ts != [] && AllFaithful(ts) && Independent(ts, m)
    ensures var k := |ts| - 1; var i := LastWriter(ts[..k], m, x);
      && CommittedByLast(ts, m)(x) == (if i == k then ts[k](m).out(x) else ts[i](m).out(x))
      && Sequential(ts, m)(x) ==
        (if Covers(ts[k](m).stores, x) then ts[k](m).out(x) else if i == k then m(x) else ts[i](m).out(x))
  {
    var k := |ts| - 1;
    WholePrefix(ts, k);
    CommittedByte(ts[..k], m, ts[k](m).out, x);
    GroupCommitIsSequential(ts, m, x);
    CommittedByte(ts, m, m, x);
    assert Covers(ts[k](m).stores, x) ==> LastWriter(ts, m, x) == k;
  }

  lemma AgreesExactly(ts: seq<Task>, m: Memory, x: nat)
    requires ts != [] && AllFaithful(ts) && Independent(ts, m)
    ensures CommittedByLast(ts, m)(x) == Sequential(ts, m)(x) <==> AgreesAt(ts, m, x)
    ensures Sequential(ts, m)(x) == Written(ts, m, x)
  {
    var k := |ts| - 1;
    WholePrefix(ts, k);
    assert ChangesOnly(m, ts[k](m));
    CommittedByLastByte(ts, m, x);
    GroupCommitIsSequential(ts, m, x);
    CommittedByte(ts, m, m, x);
  }

  /** The full group commits what sequential execution computes exactly when the
      last task's overwritten values happen to agree. */
  lemma LastTaskExactly(ts: seq<Task>, m: Memory)
    requires ts != [] && AllFaithful(ts) && Independent(ts, m)
    ensures (forall x: nat :: CommittedByLast(ts, m)(x) == Sequential(ts, m)(x)) <==> LastAgrees(ts, m)
  {
    forall x: nat ensures CommittedByLast(ts, m)(x) == Sequential(ts, m)(x) <==> AgreesAt(ts, m, x) {
      AgreesExactly(ts, m, x);
    }
  }

  lemma LeftoverAt(ts: seq<Task>, m: Memory, slot: seq<Range>, x: nat)
    requires ts != [] && AllFaithful(ts) && Independent(ts, m) && Disjoint(slot) && Backed(slot)
    ensures Applied(CommittedByLast(ts, m), slot)(x) == Sequential(ts, m)(x) <==> SlotAgreesAt(ts, m, slot, x)
  {
    hide Applied, AgreesAt, Written, Sequential, CommittedByLast, Disjoint, Backed, AllFaithful, Independent;
    AgreesExactly(ts, m, x);
    AppliedByte(CommittedByLast(ts, m), m, slot, x);
  }

  /** The same when the last slot still holds another group's patch, which is applied
      last. */
  lemma LeftoverExactly(ts: seq<Task>, m: Memory, slot: seq<Range>)
    requires ts != [] && AllFaithful(ts) && Independent(ts, m) && Disjoint(slot) && Backed(slot)
    ensures (forall x: nat :: Applied(CommittedByLast(ts, m), slot)(x) == Sequential(ts, m)(x))
      <==> SlotAgrees(ts, m, slot)
  {
    hide Applied, SlotAgreesAt, Sequential, CommittedByLast, Disjoint, Backed, AllFaithful, Independent;
    if SlotAgrees(ts, m, slot) {
      forall x: nat ensures Applied(CommittedByLast(ts, m), slot)(x) == Sequential(ts, m)(x) {
        assert SlotAgreesAt(ts, m, slot, x);
        LeftoverAt(ts, m, slot, x);
      }
    } else {
      var x: nat :| !SlotAgreesAt(ts, m, slot, x);
      LeftoverAt(ts, m, slot, x);
    }
  }

  /** A covered byte does not depend on the memory below. */
  lemma AppliedByte(m: Memory, m': Memory, slot: seq<Range>, x: nat)
    requires Disjoint(slot) && Backed(slot)
    ensures Covers(slot, x) ==> Applied(m, slot)(x) == Applied(m', slot)(x)
    ensures !Covers(slot, x) ==> Applied(m, slot)(x) == m(x)
  {
    if Covers(slot, x) {
      var i :| 0 <= i < |slot| && slot[i].Holds(x);
      AppliedAt(m, slot, x, i);
      AppliedAt(m', slot, x, i);
    } else {
      AppliedOff(m, slot, x);
    }
  }

  /** In a group that shrank, the last task has published too: applied to the memory
      it left, all patches give the sequential result, without any condition. */
  lemma LastPublished(ts: seq<Task>, m: Memory, x: nat)
    requires ts != [] && AllFaithful(ts) && Independent(ts, m)
    ensures Committed(ts, m, ts[|ts| - 1](m).out)(x) == Sequential(ts, m)(x)
  {
    var k := |ts| - 1;
    WholePrefix(ts, k);
    CommittedByte(ts, m, ts[k](m).out, x);
    CommittedByte(ts, m, m, x);
    GroupCommitIsSequential(ts, m, x);
    assert ChangesOnly(m, ts[k](m));
  }

  /** A task that stores `v` in byte 5. */
  function Storing(v: Byte): Task {
    (m: Memory) => Effect([], [Range(5, 1, [], 0)], (x: nat) => if x == 5 then v else m(x))
  }

  lemma StoringFaithful(v: Byte)
    ensures Faithful(Storing(v))
  {
    var r := Range(5, 1, [], 0);
    OneNormal(r);
    forall m: Memory ensures ChangesOnly(m, Storing(v)(m)) {
      forall x: nat | !Covers([r], x) ensures Storing(v)(m).out(x) == m(x) { CoversOne(r, x); }
    }
    forall m: Memory, m': Memory ensures Agree(Storing(v)(m).out, Storing(v)(m').out, [r]) {
      forall x: nat | Covers([r], x) ensures Storing(v)(m).out(x) == Storing(v)(m').out(x) { CoversOne(r, x); }
    }
  }

  /** Two conflict-free tasks, and the group does not commit the sequential
      result: the earlier task's store wins. */
  lemma LastStoreLost(m: Memory)
    ensures var ts := [Storing(1), Storing(2)];
      AllFaithful(ts) && Independent(ts, m) && Sequential(ts, m)(5) == 2 && CommittedByLast(ts, m)(5) == 1
  {
    var ts := [Storing(1), Storing(2)];
    StoringFaithful(1);
    StoringFaithful(2);
    CoversOne(Range(5, 1, [], 0), 5);
    CommittedByLastByte(ts, m, 5);
  }
}
