/** How many tasks of a group can commit it. */
module Committers {
  import opened CommitProtocol
  import opened GroupCommits

  /** Holds the commit lock of task 0, or committed. */
  predicate Took(c: Pc) { c.Committed? || Gathered(c) >= 1 }

  /** Signals its commit next. */
  predicate Posting(c: Pc) { c.Published? || c.Dying? || c.Committing? }

  /** What a step of task `i` does to committing tasks, verdicts, the size and the
      commit lock of task 0. */
  ghost predicate Moves(s: State, s': State, i: nat) {
    && Shaped(s) && Shaped(s') && i < |s.pc| && |s'.pc| == |s.pc| && s'.pc == s.pc[i := s'.pc[i]]
    && (Last(s'.pc[i]) ==> Last(s.pc[i]) || (s.pc[i].Deciding? && s.size == i + 1 && s'.pc[i] == Gathering(0)))
    && (s'.correct == s.correct || (s.pc[i].Checked? && s'.correct == s.correct[i := s.pc[i].ok]))
    && (s'.size == s.size || (Setting(s.pc[i]) && s'.size == s.pc[i].p && (s'.size < s.size || s.pc[i].SetStore?)))
    && (Took(s'.pc[i]) ==>
         Took(s.pc[i]) || s.pc[i] == Committing(0)
         || (s.pc[i] == Acquiring(0) && !s.committed[0] && s'.committed[0]))
    && (s'.pc[i] == Committing(0) ==> s.pc[i] == Committing(0) || (s.pc[i] == Gathering(0) && s.size <= 1))
    && (s'.posted[0] == s.posted[0] || (i == 0 && Posting(s.pc[0])))
    && (s.posted[0] ==> s'.posted[0])
    && (!s'.committed[0] ==> !s.committed[0] || (i == 0 && Posting(s.pc[0])))
    && (Early(s'.pc[i]) || s'.pc[i].Published? ==> Early(s.pc[i]))
  }

  lemma RegionMoves(s: State, i: nat, choice: Choice)
    requires Shaped(s) && i < |s.pc| && s.pc[i].Running?
    ensures Moves(s, RegionStep(s, i, choice), i)
  {
    RegionShaped(s, i, choice);
  }

  lemma SizeMove(atomic: bool, s: State, i: nat)
    requires Shaped(s) && i < |s.pc| && AtSize(s.pc[i])
    ensures Moves(s, SizeStep(atomic, s, i), i)
  {
    SizeShaped(atomic, s, i);
  }

  lemma CheckMoves(s: State, i: nat, choice: Choice)
    requires Shaped(s) && i < |s.pc| && AtCheck(s.pc[i])
    ensures Moves(s, CheckStep(s, i, choice), i)
  {
    CheckShaped(s, i, choice);
  }

  lemma CommitMoves(s: State, i: nat)
    requires Shaped(s) && i < |s.pc| && AtCommit(s.pc[i])
    ensures Moves(s, CommitStep(s, i), i)
  {
    CommitShaped(s, i);
  }

  lemma GatherMoves(s: State, i: nat)
    requires Shaped(s) && i < |s.pc| && (Last(s.pc[i]) || s.pc[i].Gone?)
    ensures Moves(s, GatherStep(s, i), i)
  {
    GatherShaped(s, i);
  }

  lemma StepMoves(atomic: bool, s: State, a: Action)
    requires Shaped(s) && a.task < |s.pc|
    ensures Moves(s, Step(atomic, s, a), a.task)
  {
    var i := a.task;
    hide Moves, RegionStep, SizeStep, CheckStep, CommitStep, GatherStep;
    if s.pc[i].Running? { RegionMoves(s, i, a.choice); }
    else if AtSize(s.pc[i]) { SizeMove(atomic, s, i); }
    else if AtCheck(s.pc[i]) { CheckMoves(s, i, a.choice); }
    else if AtCommit(s.pc[i]) { CommitMoves(s, i); }
    else { GatherMoves(s, i); }
  }

  /** What is known of every reachable state. */
  ghost predicate Known(atomic: bool, s: State) { ChecksInOrder(s) && CommitsOk(atomic, s) && Verdicts(s) }

  /** Task `k` of a known state, and its step. */
  lemma KnownOf(atomic: bool, s: State, k: nat)
    requires Known(atomic, s) && k < |s.pc|
    ensures Shaped(s) && PcOk(atomic, s, k) && SlotOk(atomic, s, k) && VerdictOk(s, k)
    ensures Last(s.pc[k]) ==> k < s.ended
    ensures s.pc[k].Checked? ==> k == s.ended
    ensures Before(s.pc[k]) ==> k >= s.begun >= s.ended
  {
    CommitsMeans(atomic, s, k);
    ChecksMeans(s, k);
    if Last(s.pc[k]) { LastEnded(s, k); }
  }

  lemma {:induction false} KnownAlways(atomic: bool, n: nat, steps: seq<Action>)
    requires n >= 1
    ensures Known(atomic, Run(atomic, n, steps))
  {
    ChecksAlways(atomic, n, steps);
    CommitsAlways(atomic, n, steps);
    VerdictsAlways(atomic, n, steps);
  }

  // ----- the distance between two committing tasks -----

  /** Between two committing tasks there is the failed one the group shrank to. */
  ghost predicate Spaced(s: State) {
    Shaped(s) && forall k, l :: 0 <= k < l < |s.pc| && Last(s.pc[k]) && Last(s.pc[l]) ==> k + 1 < l && !s.correct[k + 1]
  }

  lemma SpacedStep(s: State, s': State, i: nat)
    requires Known(true, s) && Spaced(s) && Moves(s, s', i)
    ensures Spaced(s')
  {
    hide Known;
    forall k, l | 0 <= k < l < |s'.pc| && Last(s'.pc[k]) && Last(s'.pc[l]) ensures k + 1 < l && !s'.correct[k + 1] {
      KnownOf(true, s, i);
      KnownOf(true, s, k);
      KnownOf(true, s, l);
    }
  }

  lemma {:induction false} SpacedAlways(n: nat, steps: seq<Action>)
    requires n >= 1
    ensures Spaced(Run(true, n, steps))
  {
    if steps != [] {
      var before, a := Run(true, n, steps[..|steps| - 1]), steps[|steps| - 1];
      SpacedAlways(n, steps[..|steps| - 1]);
      KnownAlways(true, n, steps[..|steps| - 1]);
      hide Known, Spaced, Step, Moves;
      if a.task < n {
        StepMoves(true, before, a);
        SpacedStep(before, Step(true, before, a), a.task);
      } else {
        NoTask(true, before, a);
      }
    }
  }

  lemma NoTask(atomic: bool, s: State, a: Action)
    requires Shaped(s) && a.task >= |s.pc|
    ensures Step(atomic, s, a) == s
  {
  }

  /** In every run with an atomic size: of two tasks that decided to commit the group,
      the task right after the first one failed its check, and lies between them. */
  lemma CommittersApart(n: nat, steps: seq<Action>, k: nat, l: nat)
    requires n >= 1 && k < l < n && Last(Run(true, n, steps).pc[k]) && Last(Run(true, n, steps).pc[l])
    ensures k + 1 < l && !Run(true, n, steps).correct[k + 1]
  {
    SpacedAlways(n, steps);
  }

  // ----- the commit lock of task 0 -----

  /** Unless task 1 fails, a committing task must take the commit lock of task 0,
      which is freed once. */
  ghost predicate OneTaker(s: State) {
    && Shaped(s) && |s.pc| >= 2
    && (s.posted[0] ==> !Early(s.pc[0]) && !s.pc[0].Published?)
    && (s.correct[1] ==> forall i :: 0 <= i < |s.pc| && Took(s.pc[i]) ==> s.posted[0] && s.committed[0])
    && (s.correct[1] ==> forall i :: 0 <= i < |s.pc| ==> s.pc[i] != Committing(0))
    && (s.correct[1] ==> forall i, j :: 0 <= i < j < |s.pc| ==> !(Took(s.pc[i]) && Took(s.pc[j])))
  }

  /** Nobody decides before the second check is signalled. */
  lemma NoneEarly(atomic: bool, s: State, k: nat)
    requires Known(atomic, s) && s.ended <= 1 && k < |s.pc|
    ensures !Last(s.pc[k])
  {
    KnownOf(atomic, s, k);
  }

  lemma TakerStep(atomic: bool, s: State, s': State, i: nat)
    requires Known(atomic, s) && OneTaker(s) && Moves(s, s', i)
    ensures OneTaker(s')
  {
    hide Known;
    KnownOf(atomic, s, i);
    KnownOf(atomic, s, 0);
    if s'.correct[1] {
      if s.correct[1] {
        assert s.pc[i] == Gathering(0) ==> s.size > 1;
      } else {
        forall k | 0 <= k < |s.pc| ensures !Last(s.pc[k]) { NoneEarly(atomic, s, k); }
      }
    }
  }

  // ----- the last two tasks -----

  /** The last task decides in a group that never shrank, the one before it in one
      that did. */
  ghost predicate LastTwo(s: State) {
    && Shaped(s) && |s.pc| >= 2
    && var n := |s.pc|;
    && (Last(s.pc[n - 1]) ==> s.size == n || s.size <= n - 2)
    && (Last(s.pc[n - 2]) ==> s.size < n)
    && !(Last(s.pc[n - 1]) && Last(s.pc[n - 2]))
  }

  lemma LastTwoStep(atomic: bool, s: State, s': State, i: nat)
    requires Known(atomic, s) && LastTwo(s) && Moves(s, s', i)
    ensures LastTwo(s')
  {
    hide Known;
    KnownOf(atomic, s, i);
    KnownOf(atomic, s, |s.pc| - 1);
    KnownOf(atomic, s, |s.pc| - 2);
  }

  lemma {:induction false} TakersAlways(atomic: bool, n: nat, steps: seq<Action>)
    requires n >= 2
    ensures OneTaker(Run(atomic, n, steps)) && LastTwo(Run(atomic, n, steps))
  {
    if steps != [] {
      var before, a := Run(atomic, n, steps[..|steps| - 1]), steps[|steps| - 1];
      TakersAlways(atomic, n, steps[..|steps| - 1]);
      KnownAlways(atomic, n, steps[..|steps| - 1]);
      hide Known, OneTaker, LastTwo, Step, Moves;
      if a.task < n {
        StepMoves(atomic, before, a);
        TakerStep(atomic, before, Step(atomic, before, a), a.task);
        LastTwoStep(atomic, before, Step(atomic, before, a), a.task);
      } else {
        NoTask(atomic, before, a);
      }
    }
  }

  /** Two tasks have committed the group. */
  predicate BothCommitted(s: State, k: nat, l: nat) {
    k < l < |s.pc| && s.pc[k].Committed? && s.pc[l].Committed?
  }

  lemma NotBoth(atomic: bool, s: State, k: nat, l: nat)
    requires Known(atomic, s) && OneTaker(s) && LastTwo(s) && |s.pc| <= 4
    ensures !BothCommitted(s, k, l)
  {
    if BothCommitted(s, k, l) {
      KnownOf(atomic, s, k);
      hide Known, Verdicts, CommitsOk, ChecksInOrder;
    }
  }

  /** In a group of four tasks at most, however the size is set, no two commit. */
  lemma OneCommits(atomic: bool, n: nat, steps: seq<Action>, k: nat, l: nat)
    requires 1 <= n <= 4
    ensures !BothCommitted(Run(atomic, n, steps), k, l)
  {
    if n >= 2 {
      KnownAlways(atomic, n, steps);
      TakersAlways(atomic, n, steps);
      hide Known, OneTaker, LastTwo, Run, BothCommitted;
      NotBoth(atomic, Run(atomic, n, steps), k, l);
    }
  }
}
