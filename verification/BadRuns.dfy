/** Runs of the commit protocol that go wrong, and in which groups they exist. */
module BadRuns {
  import opened CommitProtocol
  import opened GroupCommits
  import opened Committers

  /** A run reaches this state. */
  ghost predicate Reached(atomic: bool, n: nat, s: State)
    requires n >= 1
  {
    exists steps :: Run(atomic, n, steps) == s
  }

  lemma ReachedInit(atomic: bool, n: nat)
    requires n >= 1
    ensures Reached(atomic, n, Init(n))
  {
    assert Run(atomic, n, []) == Init(n);
  }

  lemma ReachedNext(atomic: bool, n: nat, s: State, a: Action)
    requires n >= 1 && Reached(atomic, n, s)
    ensures Shaped(s) && Reached(atomic, n, Step(atomic, s, a)) && Shaped(Step(atomic, s, a))
  {
    var steps :| Run(atomic, n, steps) == s;
    RunNext(atomic, n, steps, a);
    StepShaped(atomic, s, a);
  }

  /** One more step of task `i`. */
  lemma Move(atomic: bool, n: nat, s: State, i: nat, choice: Choice) returns (s': State)
    requires n >= 1 && Reached(atomic, n, s) && Shaped(s)
    ensures Reached(atomic, n, s') && Shaped(s') && s' == Step(atomic, s, Action(i, choice))
  {
    ReachedNext(atomic, n, s, Action(i, choice));
    s' := Step(atomic, s, Action(i, choice));
  }

  /** Setting the size in one step is setting it in two with nothing in between. */
  lemma {:induction false} AtomicIsOneOf(n: nat, steps: seq<Action>)
    requires n >= 1
    ensures Reached(false, n, Run(true, n, steps))
  {
    if steps == [] {
      ReachedInit(false, n);
    } else {
      var before, a := Run(true, n, steps[..|steps| - 1]), steps[|steps| - 1];
      AtomicIsOneOf(n, steps[..|steps| - 1]);
      ReachedNext(false, n, before, a);
      if Step(true, before, a) != Step(false, before, a) {
        ReachedNext(false, n, Step(false, before, a), a);
        TwoSteps(before, a);
      }
    }
  }

  lemma TwoSteps(s: State, a: Action)
    requires Shaped(s) && Shaped(Step(false, s, a)) && Step(true, s, a) != Step(false, s, a)
    ensures Step(false, Step(false, s, a), a) == Step(true, s, a)
  {
    hide RegionStep, CheckStep, CommitStep, GatherStep;
  }

  // ----- checks in turn -----

  /** The first task is checked. */
  lemma MainChecked(atomic: bool, n: nat, s0: State) returns (s: State)
    requires n >= 1 && Reached(atomic, n, s0) && Shaped(s0) && s0.pc[0].Running?
    ensures Reached(atomic, n, s) && Shaped(s) && s.size == s0.size && s.pc == s0.pc[0 := Signalled(true)]
    ensures s.checked == s0.checked[0 := false] && s.correct == s0.correct[0 := true] && s.committed == s0.committed
  {
    hide Reached, SizeStep, CommitStep, GatherStep;
    s := Move(atomic, n, s0, 0, Go);
    s := Move(atomic, n, s, 0, Go);
    s := Move(atomic, n, s, 0, Go);
  }

  /** A later task waits its turn and is checked. */
  lemma Turn(atomic: bool, n: nat, s0: State, i: nat, c: Choice) returns (s: State)
    requires n >= 1 && Reached(atomic, n, s0) && Shaped(s0) && 1 <= i < s0.size
    requires s0.pc[i].Running? && !s0.checked[i - 1]
    requires c == Go || c == Fail
    ensures Reached(atomic, n, s) && Shaped(s) && s.size == s0.size && s.pc == s0.pc[i := Signalled(c == Go)]
    ensures !s.checked[i] && s.correct == s0.correct[i := c == Go] && s.committed == s0.committed
  {
    hide Reached, SizeStep, CommitStep, GatherStep;
    s := Move(atomic, n, s0, i, Go);
    s := Move(atomic, n, s, i, Go);
    s := Move(atomic, n, s, i, c);
    s := Move(atomic, n, s, i, Go);
  }

  /** A task that passed publishes its patch and signals its commit. */
  lemma Publish(atomic: bool, n: nat, s0: State, i: nat) returns (s: State)
    requires n >= 1 && Reached(atomic, n, s0) && Shaped(s0) && i + 1 < s0.size && s0.pc[i] == Signalled(true)
    ensures Reached(atomic, n, s) && Shaped(s) && s.size == s0.size && s.pc == s0.pc[i := WaitNext]
    ensures s.correct == s0.correct && s.committed == s0.committed[i := false] && s.published == s0.published[i := true]
    ensures s.checked == s0.checked
  {
    hide Reached, SizeStep, RegionStep, GatherStep;
    s := Move(atomic, n, s0, i, Go);
    s := Move(atomic, n, s, i, Go);
    s := Move(atomic, n, s, i, Go);
  }

  // ----- a commit over a failed check -----

  /** Task 0 publishes; task 1 fails; task 2 passes; tasks 1 and 3 test the size. */
  lemma BothTested(n: nat) returns (s: State)
    requires n >= 4
    ensures Reached(false, n, s) && Shaped(s) && s.size == |s.pc| == n
    ensures s.pc[1] == SetStore(1, true) && s.pc[2] == Signalled(true) && s.pc[3] == SetStore(3, true)
    ensures !s.correct[1] && !s.committed[0]
  {
    hide Reached, Step;
    ReachedInit(false, n);
    s := MainChecked(false, n, Init(n));
    s := Publish(false, n, s, 0);
    s := Turn(false, n, s, 1, Fail);
    s := Turn(false, n, s, 2, Go);
    s := Tests(n, s);
  }

  /** Both size tests pass before either store. */
  lemma Tests(n: nat, s0: State) returns (s: State)
    requires n >= 4 && Reached(false, n, s0) && Shaped(s0) && s0.size == |s0.pc| == n
    requires s0.pc[1] == Signalled(false) && s0.pc[3] == Running
    ensures Reached(false, n, s) && Shaped(s) && s.size == n
    ensures s.pc == s0.pc[1 := SetStore(1, true)][3 := SetStore(3, true)]
    ensures s.correct == s0.correct && s.committed == s0.committed
  {
    hide Reached, CommitStep, GatherStep;
    s := Move(false, n, s0, 1, Go);
    s := Move(false, n, s, 1, Go);
    s := Move(false, n, s, 3, AbortSelf);
    s := Move(false, n, s, 3, Go);
  }

  /** The size goes down to 1 and up to 3; task 1 signals its commit. */
  lemma Stores(n: nat, s0: State) returns (s: State)
    requires n >= 4 && Reached(false, n, s0) && Shaped(s0) && s0.size == |s0.pc| == n
    requires s0.pc[1] == SetStore(1, true) && s0.pc[3] == SetStore(3, true)
    ensures Reached(false, n, s) && Shaped(s) && s.size == 3 && s.pc == s0.pc[1 := Gone][3 := Dying]
    ensures s.correct == s0.correct && s.committed == s0.committed[1 := false]
  {
    hide Reached, RegionStep, CheckStep, CommitStep, GatherStep;
    s := Move(false, n, s0, 1, Go);
    s := Move(false, n, s, 1, Go);
    s := Move(false, n, s, 3, Go);
  }

  /** A task that passed finds itself the last of the group. */
  lemma Decides(atomic: bool, n: nat, s0: State, i: nat) returns (s: State)
    requires n >= 1 && Reached(atomic, n, s0) && Shaped(s0) && 1 <= i < |s0.pc| && s0.size == i + 1
    requires s0.pc[i] == Signalled(true)
    ensures Reached(atomic, n, s) && Shaped(s) && s == s0.(pc := s0.pc[i := Gathering(0)])
  {
    hide Reached, RegionStep, SizeStep, GatherStep;
    s := Move(atomic, n, s0, i, Go);
    s := Move(atomic, n, s, i, Go);
  }

  /** It takes a free commit lock. */
  lemma Takes(atomic: bool, n: nat, s0: State, i: nat, j: nat) returns (s: State)
    requires n >= 1 && Reached(atomic, n, s0) && Shaped(s0) && i < |s0.pc| && j + 1 < s0.size
    requires s0.pc[i] == Gathering(j) && !s0.committed[j]
    ensures Reached(atomic, n, s) && Shaped(s)
    ensures s == s0.(committed := s0.committed[j := true], pc := s0.pc[i := Gathering(j + 1)])
  {
    hide Reached, RegionStep, SizeStep, CheckStep, CommitStep;
    s := Move(atomic, n, s0, i, Go);
    s := Move(atomic, n, s, i, Go);
  }

  lemma Waited(n: nat, s0: State) returns (s: State)
    requires n >= 1 && Reached(false, n, s0) && Shaped(s0) && s0.size == 3 && s0.pc[2] == Gathering(2)
    ensures Reached(false, n, s) && Shaped(s) && s == s0.(pc := s0.pc[2 := Committing(2)])
  {
    hide Reached, RegionStep, SizeStep, CheckStep, CommitStep;
    s := Move(false, n, s0, 2, Go);
  }

  /** Some run lets a task wait for a group that ends with it, over a failed check. */
  ghost predicate FailureCommits(atomic: bool, n: nat)
    requires n >= 1
  {
    exists s, k :: Reached(atomic, n, s) && OverFailure(s, k)
  }

  lemma FailureCommitted(n: nat)
    requires n >= 4
    ensures FailureCommits(false, n)
  {
    hide Reached, Step;
    var s := BothTested(n);
    s := Stores(n, s);
    s := Decides(false, n, s, 2);
    s := Takes(false, n, s, 2, 0);
    s := Takes(false, n, s, 2, 1);
    s := Waited(n, s);
    assert OverFailure(s, 2);
  }

  /** A task can wait for a group that ends with it over a failed check exactly when
      the size is tested outside the lock and the group has four tasks at least. */
  lemma FailureCommitsExactly(atomic: bool, n: nat)
    requires n >= 1
    ensures FailureCommits(atomic, n) <==> !atomic && n >= 4
  {
    if !atomic && n >= 4 {
      FailureCommitted(n);
    } else {
      forall s, k: nat | Reached(atomic, n, s) ensures !OverFailure(s, k) {
        var steps :| Run(atomic, n, steps) == s;
        if k < n { NoFailure(atomic, n, steps, k); }
      }
    }
  }

  // ----- two commits -----

  /** Tasks 1 and 3 fail, and all five checks are signalled before anyone shrinks the
      group below five. */
  lemma AllChecked(n: nat) returns (s: State)
    requires n >= 5
    ensures Reached(true, n, s) && Shaped(s) && s.size == 5 && |s.pc| == n
    ensures s.pc[1] == s.pc[3] == Signalled(false) && s.pc[2] == s.pc[4] == Signalled(true)
  {
    hide Reached, Step;
    s := FiveLeft(n);
    s := MainChecked(true, n, s);
    s := Turn(true, n, s, 1, Fail);
    s := Turn(true, n, s, 2, Go);
    s := Turn(true, n, s, 3, Fail);
    s := Turn(true, n, s, 4, Go);
  }

  /** In a larger group task 5 aborts. */
  lemma FiveLeft(n: nat) returns (s: State)
    requires n >= 5
    ensures Reached(true, n, s) && Shaped(s) && s.size == 5 && |s.pc| == n
    ensures forall i :: 0 <= i < 5 ==> s.pc[i].Running? && s.checked[i]
  {
    hide Reached, CheckStep, CommitStep, GatherStep;
    ReachedInit(true, n);
    s := Init(n);
    if n > 5 {
      s := Move(true, n, s, 5, AbortSelf);
      s := Move(true, n, s, 5, Go);
    }
  }

  /** Task 4 decides in a group of five, task 2 in a group of three; then the group
      shrinks to one. */
  lemma BothDecided(n: nat, s0: State) returns (s: State)
    requires n >= 5 && Reached(true, n, s0) && Shaped(s0) && s0.size == 5 && |s0.pc| == n
    requires s0.pc[1] == s0.pc[3] == Signalled(false) && s0.pc[2] == s0.pc[4] == Signalled(true)
    ensures Reached(true, n, s) && Shaped(s) && s.size == 1 && |s.pc| == n
    ensures s.pc[2] == s.pc[4] == Gathering(0)
  {
    hide Reached, Step;
    s := Decides(true, n, s0, 4);
    s := Shrinks(n, s, 3);
    s := Decides(true, n, s, 2);
    s := Shrinks(n, s, 1);
  }

  /** A task that failed shrinks the group to the tasks before it. */
  lemma Shrinks(n: nat, s0: State, i: nat) returns (s: State)
    requires n >= 1 && Reached(true, n, s0) && Shaped(s0) && 1 <= i < s0.size && s0.pc[i] == Signalled(false)
    ensures Reached(true, n, s) && Shaped(s) && s == s0.(size := i, pc := s0.pc[i := Dying])
  {
    hide Reached, RegionStep, CommitStep, GatherStep;
    s := Move(true, n, s0, i, Go);
    s := Move(true, n, s, i, Go);
  }

  /** Some run lets two tasks commit the group. */
  ghost predicate TwoCommit(atomic: bool, n: nat)
    requires n >= 1
  {
    exists s, k, l :: Reached(atomic, n, s) && BothCommitted(s, k, l)
  }

  lemma DoubleCommit(n: nat)
    requires n >= 5
    ensures TwoCommit(true, n)
  {
    hide Reached, RegionStep, SizeStep, CheckStep, CommitStep;
    var s := AllChecked(n);
    s := BothDecided(n, s);
    s := Move(true, n, s, 2, Go);
    s := Move(true, n, s, 2, Go);
    s := Move(true, n, s, 4, Go);
    s := Move(true, n, s, 4, Go);
    assert BothCommitted(s, 2, 4);
  }

  /** Two tasks can commit one group exactly when it has five tasks at least, however
      the size is set. */
  lemma TwoCommitExactly(atomic: bool, n: nat)
    requires n >= 1
    ensures TwoCommit(atomic, n) <==> n >= 5
  {
    if n >= 5 {
      DoubleCommit(n);
      var s, k, l :| Reached(true, n, s) && BothCommitted(s, k, l);
      var steps :| Run(true, n, steps) == s;
      AtomicIsOneOf(n, steps);
    } else {
      forall s, k: nat, l: nat | Reached(atomic, n, s) ensures !BothCommitted(s, k, l) {
        var steps :| Run(atomic, n, steps) == s;
        OneCommits(atomic, n, steps, k, l);
      }
    }
  }
}
