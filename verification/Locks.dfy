/** Who holds a commit lock, in every run of the commit protocol. */
module Locks {
  import opened CommitProtocol
  import opened GroupCommits

  /** How many commit locks a task took for the group. */
  function Taken(c: Pc): nat { if c.Committed? then c.j else Gathered(c) }

  /** Task `k` holds the commit lock of task `j`: it is about to give it back, or took
      it for the group. */
  predicate Holds(s: State, k: nat, j: nat)
    requires k < |s.pc|
  {
    (j == k + 1 && s.pc[k].NextDone?) || j < Taken(s.pc[k])
  }

  /** A lock that was signalled and is not free is held by a task. */
  ghost predicate LockOk(s: State, j: nat)
    requires Shaped(s) && j < |s.pc|
  {
    s.posted[j] && s.committed[j] ==> exists k :: 0 <= k < |s.pc| && Holds(s, k, j)
  }

  ghost predicate LocksOk(s: State) { Shaped(s) && forall j :: 0 <= j < |s.pc| ==> LockOk(s, j) }

  /** What a step of task `i` does to commit locks: a lock not free afterwards was
      not free before, and is held by `i` as before, or is held by `i` now. */
  ghost predicate LockMove(s: State, s': State, i: nat) {
    && Shaped(s) && Shaped(s') && i < |s.pc| && |s'.pc| == |s.pc| && s'.pc == s.pc[i := s'.pc[i]]
    && forall j :: 0 <= j < |s.pc| && s'.posted[j] && s'.committed[j] ==>
         Holds(s', i, j) || (s.posted[j] && s.committed[j] && !Holds(s, i, j))
  }

  lemma RegionLocks(s: State, i: nat, choice: Choice)
    requires Shaped(s) && i < |s.pc| && s.pc[i].Running?
    ensures LockMove(s, RegionStep(s, i, choice), i)
  {
    RegionShaped(s, i, choice);
  }

  lemma SizeLocks(atomic: bool, s: State, i: nat)
    requires Shaped(s) && i < |s.pc| && AtSize(s.pc[i])
    ensures LockMove(s, SizeStep(atomic, s, i), i)
  {
    SizeShaped(atomic, s, i);
  }

  lemma CheckLocks(s: State, i: nat, choice: Choice)
    requires Shaped(s) && i < |s.pc| && AtCheck(s.pc[i])
    ensures LockMove(s, CheckStep(s, i, choice), i)
  {
    CheckShaped(s, i, choice);
  }

  lemma CommitLocks(s: State, i: nat)
    requires Shaped(s) && i < |s.pc| && AtCommit(s.pc[i])
    ensures LockMove(s, CommitStep(s, i), i)
  {
    CommitShaped(s, i);
  }

  lemma GatherLocks(s: State, i: nat)
    requires Shaped(s) && i < |s.pc| && (Last(s.pc[i]) || s.pc[i].Gone?)
    ensures LockMove(s, GatherStep(s, i), i)
  {
    GatherShaped(s, i);
  }

  lemma LocksStep(atomic: bool, s: State, a: Action)
    requires LocksOk(s)
    ensures LocksOk(Step(atomic, s, a))
  {
    var i := a.task;
    if i < |s.pc| {
      hide RegionStep, SizeStep, CheckStep, CommitStep, GatherStep, LockMove;
      if s.pc[i].Running? { RegionLocks(s, i, a.choice); }
      else if AtSize(s.pc[i]) { SizeLocks(atomic, s, i); }
      else if AtCheck(s.pc[i]) { CheckLocks(s, i, a.choice); }
      else if AtCommit(s.pc[i]) { CommitLocks(s, i); }
      else { GatherLocks(s, i); }
      LocksMoved(s, Step(atomic, s, a), i);
    }
  }

  lemma LocksMoved(s: State, s': State, i: nat)
    requires LocksOk(s) && LockMove(s, s', i)
    ensures LocksOk(s')
  {
    forall j | 0 <= j < |s'.pc| ensures LockOk(s', j) {
      assert LockOk(s, j);
      if s'.posted[j] && s'.committed[j] && !Holds(s', i, j) {
        var k :| 0 <= k < |s.pc| && Holds(s, k, j);
        assert Holds(s', k, j);
      }
    }
  }

  /** In every run a commit lock that was signalled is free, or is held by a task that
      is about to give it back or took it for the group. */
  lemma {:induction false} LocksAlways(atomic: bool, n: nat, steps: seq<Action>)
    requires n >= 1
    ensures LocksOk(Run(atomic, n, steps))
  {
    if steps != [] {
      LocksAlways(atomic, n, steps[..|steps| - 1]);
      LocksStep(atomic, Run(atomic, n, steps[..|steps| - 1]), steps[|steps| - 1]);
    }
  }
}
