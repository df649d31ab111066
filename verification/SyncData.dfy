/** The shared record of a group: its locks and sizes, and the calls on them that
    do not wait. */
module SyncRecords {
  import opened CommitProtocol

  class SyncData {
    var groupSize: nat
    var partialSize: nat
    var checked: array<bool>
    var correct: array<bool>
    var committed: array<bool>

    ghost predicate Valid()
      reads this
    {
      && 1 <= partialSize <= groupSize <= checked.Length && checked.Length == correct.Length == committed.Length
      && checked != correct && checked != committed && correct != committed
    }

    /** The record holds what the protocol state says. */
    ghost predicate Holds(s: State)
      reads this, checked, correct, committed
    {
      && Valid() && Shaped(s) && |s.pc| == groupSize && s.size == partialSize
      && checked[..groupSize] == s.checked && correct[..groupSize] == s.correct && committed[..groupSize] == s.committed
    }

    /** `ppr_sync_data_reset`: every lock of every slot is taken, and the partial
        size is the whole group, as a run of the protocol starts. */
    method Reset()
      requires Valid()
      modifies this`partialSize, checked, committed
      ensures Valid() && partialSize == groupSize
      ensures forall i :: 0 <= i < checked.Length ==> checked[i] && committed[i]
      ensures Holds(Init(groupSize).(correct := correct[..groupSize]))
    {
      var i := 0;
      while i < checked.Length
        invariant 0 <= i <= checked.Length && Valid()
        invariant forall j :: 0 <= j < i ==> checked[j] && committed[j]
      {
        checked[i] := false;
        checked[i] := true;
        committed[i] := false;
        committed[i] := true;
        i := i + 1;
      }
      partialSize := groupSize;
    }

    /** `partial_group_set_size`, called by task `i` with no other in between. */
    method SetPartialSize(i: nat, p: nat, ghost s: State)
      requires Holds(s) && i < groupSize && p >= 1 && s.pc[i].SetTest? && s.pc[i].p == p
      modifies this`partialSize
      ensures Holds(SizeStep(true, s, i))
    {
      if partialSize > p { partialSize := p; }
    }

    /** `signal_check_done`. */
    method SignalCheckDone(i: nat, passed: bool, ghost s: State)
      requires Holds(s) && i < groupSize && s.pc[i] == Checked(passed)
      modifies checked, correct
      ensures Holds(CheckStep(s, i, Go))
    {
      correct[i] := passed;
      checked[i] := false;
    }

    /** `signal_commit_done`. */
    method SignalCommitDone(i: nat, ghost s: State)
      requires Holds(s) && i < groupSize
      modifies committed
      ensures Holds(SignalCommit(s, i))
    {
      committed[i] := false;
    }

    /** `wait_prior_check_done`, once the lock is free. */
    method TakePriorCheck(i: nat, ghost s: State)
      requires Holds(s) && 1 <= i < groupSize && !checked[i - 1] && s.pc[i].WaitPrior?
      modifies checked
      ensures Holds(CheckStep(s, i, Go))
    {
      checked[i - 1] := true;
    }
  }
}
