/** Runs in which the group, or what is left of it before a failed check, is
    committed. */
module GoodRuns {
  import opened CommitProtocol
  import opened GroupCommits
  import opened BadRuns

  /** The first `i` checks passed, none in the other tasks has begun. */
  predicate Checked(s: State, n: nat, i: nat) {
    && Shaped(s) && s.size == |s.pc| == n && 1 <= i <= n && !s.checked[i - 1]
    && (forall k :: 0 <= k < i ==> s.pc[k] == Signalled(true) && s.correct[k])
    && (forall k :: i <= k < n ==> s.pc[k].Running? && !s.correct[k])
  }

  lemma {:induction false} AllPass(atomic: bool, n: nat, i: nat) returns (s: State)
    requires 1 <= i <= n
    ensures Reached(atomic, n, s) && Checked(s, n, i)
  {
    hide Reached, Step;
    if i == 1 {
      ReachedInit(atomic, n);
      s := MainChecked(atomic, n, Init(n));
    } else {
      s := AllPass(atomic, n, i - 1);
      s := Turn(atomic, n, s, i - 1, Go);
    }
  }

  /** The group has `z` tasks: its full size, or the task after them failed its check
      and is gone. */
  predicate Left(s: State, n: nat, z: nat) {
    && Shaped(s) && s.size == z && |s.pc| == n && 2 <= z <= n && (forall k :: 0 <= k < z ==> s.correct[k])
    && (z < n ==> !s.correct[z] && s.pc[z].Gone?)
  }

  /** The first `i` tasks published and signalled their commits; the others have yet
      to. */
  predicate Posted(s: State, n: nat, z: nat, i: nat) {
    && Left(s, n, z) && i < z
    && (forall k :: 0 <= k < i ==> s.pc[k].WaitNext? && s.published[k] && !s.committed[k])
    && (forall k :: i <= k < z ==> s.pc[k] == Signalled(true))
  }

  /** The task after the first `z` fails its check and shrinks the group. */
  lemma Fails(atomic: bool, n: nat, s0: State, z: nat) returns (s: State)
    requires 2 <= z < n && Reached(atomic, n, s0) && Checked(s0, n, z)
    ensures Reached(atomic, n, s) && Posted(s, n, z, 0)
  {
    hide Reached, RegionStep, CommitStep, GatherStep;
    s := Turn(atomic, n, s0, z, Fail);
    s := Move(atomic, n, s, z, Go);
    s := Move(atomic, n, s, z, Go);
    if !atomic { s := Move(atomic, n, s, z, Go); }
    s := Move(atomic, n, s, z, Go);
  }

  lemma {:induction false} AllPublish(atomic: bool, n: nat, z: nat, i: nat) returns (s: State)
    requires i < z && 2 <= z <= n
    ensures Reached(atomic, n, s) && Posted(s, n, z, i)
  {
    hide Reached, Step;
    if i == 0 {
      s := AllPass(atomic, n, z);
      if z < n { s := Fails(atomic, n, s, z); }
    } else {
      s := AllPublish(atomic, n, z, i - 1);
      s := Publish(atomic, n, s, i - 1);
    }
  }

  /** The first `i` tasks have seen the next one commit and are gone. */
  predicate Passed(s: State, n: nat, z: nat, i: nat) {
    && Left(s, n, z) && i + 1 < z
    && (forall k :: 0 <= k < z - 1 ==> s.published[k] && !s.committed[k])
    && (forall k :: 0 <= k < i ==> s.pc[k].Gone?) && (forall k :: i <= k < z - 1 ==> s.pc[k].WaitNext?)
    && s.pc[z - 1] == Signalled(true)
  }

  /** A task finds the commit lock of the next one free, takes it and gives it back. */
  lemma SeesNext(atomic: bool, n: nat, s0: State, i: nat) returns (s: State)
    requires n >= 1 && Reached(atomic, n, s0) && Shaped(s0) && i + 1 < s0.size && s0.pc[i].WaitNext?
    requires !s0.committed[i + 1]
    ensures Reached(atomic, n, s) && Shaped(s) && s == s0.(pc := s0.pc[i := Gone])
  {
    hide Reached, SizeStep, RegionStep, CheckStep, GatherStep;
    s := Move(atomic, n, s0, i, Go);
    s := Move(atomic, n, s, i, Go);
    s := Move(atomic, n, s, i, Go);
    assert s.committed == s0.committed;
  }

  lemma {:induction false} AllSee(atomic: bool, n: nat, z: nat, i: nat) returns (s: State)
    requires i + 1 < z <= n
    ensures Reached(atomic, n, s) && Passed(s, n, z, i)
  {
    hide Reached, Step;
    if i == 0 {
      s := AllPublish(atomic, n, z, z - 1);
    } else {
      s := AllSee(atomic, n, z, i - 1);
      s := SeesNext(atomic, n, s, i - 1);
    }
  }

  /** The last task takes the commit locks of all the others. */
  lemma {:induction false} TakesAll(atomic: bool, n: nat, z: nat, s0: State, j: nat) returns (s: State)
    requires n >= 1 && Reached(atomic, n, s0) && Left(s0, n, z) && j < z
    requires s0.pc[z - 1] == Gathering(0) && forall k :: 0 <= k < z - 1 ==> !s0.committed[k]
    ensures Reached(atomic, n, s) && Left(s, n, z) && s.pc == s0.pc[z - 1 := Gathering(j)]
    ensures s.published == s0.published && forall k :: j <= k < z - 1 ==> !s.committed[k]
  {
    hide Reached, Step;
    if j == 0 {
      s := s0;
    } else {
      s := TakesAll(atomic, n, z, s0, j - 1);
      s := Takes(atomic, n, s, z - 1, j - 1);
    }
  }

  lemma LastCommits(atomic: bool, n: nat, z: nat, s0: State) returns (s: State)
    requires n >= 1 && Reached(atomic, n, s0) && Left(s0, n, z) && s0.pc[z - 1] == Gathering(z - 1)
    ensures Reached(atomic, n, s) && Left(s, n, z) && s.pc == s0.pc[z - 1 := Committed(z - 1)]
    ensures s.published == s0.published && !s.committed[z - 1]
  {
    hide Reached, RegionStep, SizeStep, CheckStep, CommitStep;
    s := Move(atomic, n, s0, z - 1, Go);
    s := Move(atomic, n, s, z - 1, Go);
  }

  /** The first `z` tasks are committed: their checks passed, all but the last of them
      published, saw the next one commit and are gone, and the last one committed the
      group with the locks of all others. */
  predicate AllCommitted(s: State, n: nat, z: nat) {
    && Left(s, n, z) && (forall k :: 0 <= k < z - 1 ==> s.published[k] && s.pc[k].Gone?)
    && s.pc[z - 1] == Committed(z - 1)
  }

  lemma LastGathers(atomic: bool, n: nat, z: nat) returns (s: State)
    requires 2 <= z <= n
    ensures Reached(atomic, n, s) && Left(s, n, z) && s.pc[z - 1] == Gathering(z - 1) && s.pc[z - 2].WaitNext?
    ensures (forall k :: 0 <= k < z - 1 ==> s.published[k]) && (forall k :: 0 <= k < z - 2 ==> s.pc[k].Gone?)
  {
    hide Reached, Step;
    s := AllSee(atomic, n, z, z - 2);
    s := Decides(atomic, n, s, z - 1);
    s := TakesAll(atomic, n, z, s, z - 1);
  }

  /** In every group of `n` there is a run that commits all of it, and for every
      shorter prefix of two tasks or more one that commits the prefix after the next
      task failed its check. */
  lemma GroupIsCommitted(atomic: bool, n: nat, z: nat)
    requires 2 <= z <= n
    ensures exists steps :: AllCommitted(Run(atomic, n, steps), n, z)
  {
    hide Run, Step;
    var s := LastGathers(atomic, n, z);
    s := LastCommits(atomic, n, z, s);
    s := SeesNext(atomic, n, s, z - 2);
    var steps :| Run(atomic, n, steps) == s;
  }
}
