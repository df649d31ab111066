/** What a task group commits, from its protocol to its memory. */
module GroupOutcome {
  import opened Ranges
  import opened Patches
  import opened Tasks
  import opened Merge
  import opened CommitProtocol
  import opened GroupCommits

  /** A passed check means that the task read nothing written by an earlier task
      whose writes are in the union; a published slot holds the task's patch; the
      slot of a last task that has not published holds any patch, empty or left by an
      earlier group. */
  ghost predicate Backs(s: State, k: nat, ts: seq<Task>, m: Memory, ps: seq<seq<Range>>) {
    && Shaped(s) && k < |s.pc| && |ts| == |ps| == k + 1 && AllFaithful(ts)
    && (forall i, j :: 0 <= i < j <= k && i in s.union && s.correct[j] ==> NoShare(ts[i](m).stores, ts[j](m).loads))
    && (forall j :: 0 <= j <= k && s.published[j] ==> ps[j] == PatchOf(ts[j], m))
    && Disjoint(ps[k]) && Backed(ps[k])
  }

  /** In every run: a task that has waited for a sound group that ends with it commits
      what running the tasks one after another computes: always when the group shrank
      to it after it had published, and otherwise exactly when its slot and its
      overwritten bytes agree. */
  lemma CommittedGroup(atomic: bool, n: nat, steps: seq<Action>, k: nat, ts: seq<Task>, m: Memory, ps: seq<seq<Range>>)
    requires n >= 1 && k < n && Sound(atomic, n, k) && Backs(Run(atomic, n, steps), k, ts, m, ps)
    requires Run(atomic, n, steps).pc[k].Committing? && Run(atomic, n, steps).size == k + 1
    ensures var last := ts[k](m).out;
      (forall x: nat :: AppliedAll(last, ps)(x) == Sequential(ts, m)(x)) <==>
        Run(atomic, n, steps).published[k] || SlotAgrees(ts, m, ps[k])
  {
    hide Run, AppliedAll, Sequential, SlotAgrees, AllFaithful, PatchOf, ChecksInOrder, Disjoint, Backed;
    var s := Run(atomic, n, steps);
    SoundGroup(atomic, n, steps, k);
    ChecksAlways(atomic, n, steps);
    LastEnded(s, k);
    forall i | 0 <= i < k ensures i in s.union { UnionHoldsPassed(atomic, n, steps, i); }
    assert Independent(ts, m);
    if s.published[k] {
      forall x: nat ensures AppliedAll(ts[k](m).out, ps)(x) == Sequential(ts, m)(x) { LastSlotFilled(ts, m, ps, x); }
    } else {
      LastSlotExactly(ts, m, ps);
    }
  }
}
