/** What committing a group rests on: locks, published patches, verdicts and the
    size, in every run of the commit protocol. */
module GroupCommits {
  import opened CommitProtocol

  // ----- one task among the others -----

  /** Has not published. */
  predicate Early(c: Pc) {
    Before(c) || c.Checking? || c.Checked? || (c.Signalled? && c.ok) || c.Publishing?
  }

  /** Its own check passed. */
  predicate Passed(c: Pc) { (c.Signalled? && c.ok) || AtCommit(c) || Last(c) }

  /** Commits the group, or did. */
  predicate Last(c: Pc) { c.Gathering? || c.Acquiring? || c.Committing? || c.Committed? }

  /** How many commit locks a gathering task has acquired. */
  function Gathered(c: Pc): nat {
    if c.Gathering? || c.Acquiring? || c.Committing? then c.j else 0
  }

  /** About to set the size. */
  predicate Setting(c: Pc) { c.SetTest? || c.SetStore? }

  /** Shrinks the group below itself, or will. */
  predicate Fatal(c: Pc) { (Setting(c) && c.die) || c.Dying? || (c.Signalled? && !c.ok) }

  /** What one task's step may do to the others. */
  ghost predicate Beside(s: State, s': State, i: nat) {
    && Shaped(s) && Shaped(s') && i < |s.pc| && |s'.pc| == |s.pc|
    && (forall k :: 0 <= k < |s.pc| && k != i ==> s'.pc[k] == s.pc[k] && s'.correct[k] == s.correct[k])
    && (forall k :: 0 <= k < |s.pc| && k != i ==> s'.published[k] == s.published[k])
    && (forall k :: 0 <= k < |s.pc| && s.posted[k] ==> s'.posted[k])
    && (forall k :: 0 <= k < |s.pc| && k != i && s'.posted[k] ==> s.posted[k])
    && (forall k :: 0 <= k < |s.pc| && k != i && !s'.committed[k] ==> !s.committed[k] || s.posted[k])
  }

  lemma RegionBeside(s: State, i: nat, choice: Choice)
    requires Shaped(s) && i < |s.pc| && s.pc[i].Running?
    ensures Beside(s, RegionStep(s, i, choice), i)
  {
    RegionShaped(s, i, choice);
  }

  lemma SizeBeside(atomic: bool, s: State, i: nat)
    requires Shaped(s) && i < |s.pc| && AtSize(s.pc[i])
    ensures Beside(s, SizeStep(atomic, s, i), i)
  {
    SizeShaped(atomic, s, i);
  }

  lemma CheckBeside(s: State, i: nat, choice: Choice)
    requires Shaped(s) && i < |s.pc| && AtCheck(s.pc[i])
    ensures Beside(s, CheckStep(s, i, choice), i)
  {
    CheckShaped(s, i, choice);
  }

  lemma CommitBeside(s: State, i: nat)
    requires Shaped(s) && i < |s.pc| && AtCommit(s.pc[i])
    requires s.pc[i].NextDone? && i + 1 < |s.pc| ==> s.posted[i + 1]
    ensures Beside(s, CommitStep(s, i), i)
  {
    CommitShaped(s, i);
  }

  lemma GatherBeside(s: State, i: nat)
    requires Shaped(s) && i < |s.pc| && (Last(s.pc[i]) || s.pc[i].Gone?)
    ensures Beside(s, GatherStep(s, i), i)
  {
    GatherShaped(s, i);
  }

  // ----- locks and patches -----

  /** The group shrank: with an atomic size, to `j` at most, and for good; otherwise
      below its full size, for good. */
  predicate Shrunk(atomic: bool, s: State, j: nat) { if atomic then s.size <= j else s.size < |s.pc| }

  /** What the place of a task tells about the shared state. */
  ghost predicate PcOk(atomic: bool, s: State, i: nat)
    requires Shaped(s) && i < |s.pc|
  {
    var c := s.pc[i];
    && (c.SetStore? ==> !atomic && 1 <= c.p < |s.pc|)
    && (Setting(c) ==> c.p == if c.die then i else i + 1)
    && ((Setting(c) && c.die) || c.Dying? || Last(c) ==> i >= 1)
    && ((c.Checked? || c.Signalled?) && !c.ok ==> i >= 1)
    && (c.Dying? ==> Shrunk(atomic, s, i))
    && (Early(c) ==> !s.published[i] && !s.posted[i])
    && (Passed(c) ==> s.correct[i])
    && (c.Published? ==> s.published[i])
    && (c.NextDone? ==> i + 1 < |s.pc| && s.posted[i + 1])
    && (Before(c) || InCheck(c) || Fatal(c) ==> !s.correct[i])
    && (Last(c) ==> s.size <= i + 1 || (!atomic && s.size < |s.pc|))
    && (forall l :: 0 <= l < Gathered(c) && l < |s.pc| ==> s.posted[l])
    && (c.Committing? ==> s.size <= c.j + 1 || (!atomic && s.size < |s.pc|))
  }

  /** What a published patch, and a signalled or free commit lock, mean. */
  ghost predicate SlotOk(atomic: bool, s: State, j: nat)
    requires Shaped(s) && j < |s.pc|
  {
    && (s.published[j] ==> s.correct[j])
    && (s.posted[j] ==> s.published[j] || (Shrunk(atomic, s, j) && !s.correct[j]) || s.pc[j].Committed?)
    && (!s.committed[j] ==> s.posted[j])
  }

  ghost predicate CommitsOk(atomic: bool, s: State) {
    && Shaped(s)
    && (forall i :: 0 <= i < |s.pc| ==> PcOk(atomic, s, i))
    && (forall j :: 0 <= j < |s.pc| ==> SlotOk(atomic, s, j))
  }

  /** The size moves as the setting of it allows. */
  predicate SizeMoves(atomic: bool, s: State, s': State) {
    && |s'.pc| == |s.pc|
    && (s.size < |s.pc| ==> s'.size < |s.pc|)
    && (atomic ==> s'.size <= s.size)
  }

  lemma OthersOk(atomic: bool, s: State, s': State, i: nat)
    requires CommitsOk(atomic, s) && Beside(s, s', i) && SizeMoves(atomic, s, s')
    requires PcOk(atomic, s', i) && SlotOk(atomic, s', i)
    ensures CommitsOk(atomic, s')
  {
    forall k | 0 <= k < |s.pc| && k != i ensures PcOk(atomic, s', k) && SlotOk(atomic, s', k) {
      assert PcOk(atomic, s, k) && SlotOk(atomic, s, k);
    }
  }

  lemma CommitsMeans(atomic: bool, s: State, i: nat)
    requires CommitsOk(atomic, s) && i < |s.pc|
    ensures Shaped(s) && PcOk(atomic, s, i) && SlotOk(atomic, s, i)
    ensures forall j :: 0 <= j < |s.pc| && !s.committed[j] ==> s.posted[j]
  {
    forall j | 0 <= j < |s.pc| && !s.committed[j] ensures s.posted[j] { assert SlotOk(atomic, s, j); }
  }

  lemma RegionCommits(atomic: bool, s: State, i: nat, choice: Choice)
    requires CommitsOk(atomic, s) && i < |s.pc| && s.pc[i].Running?
    ensures CommitsOk(atomic, RegionStep(s, i, choice))
  {
    hide CommitsOk, Beside;
    CommitsMeans(atomic, s, i);
    RegionBeside(s, i, choice);
    RegionShaped(s, i, choice);
    OthersOk(atomic, s, RegionStep(s, i, choice), i);
  }

  lemma TestCommits(atomic: bool, s: State, i: nat)
    requires CommitsOk(atomic, s) && i < |s.pc| && s.pc[i].SetTest?
    ensures CommitsOk(atomic, SizeStep(atomic, s, i))
  {
    hide CommitsOk, Beside;
    CommitsMeans(atomic, s, i);
    SizeBeside(atomic, s, i);
    SizeShaped(atomic, s, i);
    OthersOk(atomic, s, SizeStep(atomic, s, i), i);
  }

  lemma StoreCommits(atomic: bool, s: State, i: nat)
    requires CommitsOk(atomic, s) && i < |s.pc| && s.pc[i].SetStore?
    ensures CommitsOk(atomic, SizeStep(atomic, s, i))
  {
    hide CommitsOk, Beside;
    CommitsMeans(atomic, s, i);
    SizeBeside(atomic, s, i);
    SizeShaped(atomic, s, i);
    OthersOk(atomic, s, SizeStep(atomic, s, i), i);
  }

  lemma DieCommits(atomic: bool, s: State, i: nat)
    requires CommitsOk(atomic, s) && i < |s.pc| && s.pc[i].Dying?
    ensures CommitsOk(atomic, SizeStep(atomic, s, i))
  {
    hide CommitsOk, Beside;
    CommitsMeans(atomic, s, i);
    SizeBeside(atomic, s, i);
    SizeShaped(atomic, s, i);
    OthersOk(atomic, s, SizeStep(atomic, s, i), i);
  }

  lemma EnterCommits(atomic: bool, s: State, i: nat, choice: Choice)
    requires CommitsOk(atomic, s) && i < |s.pc| && (s.pc[i].WaitPrior? || s.pc[i].Checking?)
    ensures CommitsOk(atomic, CheckStep(s, i, choice))
  {
    hide CommitsOk, Beside;
    CommitsMeans(atomic, s, i);
    CheckBeside(s, i, choice);
    CheckShaped(s, i, choice);
    OthersOk(atomic, s, CheckStep(s, i, choice), i);
  }

  lemma CheckedCommits(atomic: bool, s: State, i: nat, choice: Choice)
    requires CommitsOk(atomic, s) && i < |s.pc| && s.pc[i].Checked?
    ensures CommitsOk(atomic, CheckStep(s, i, choice))
  {
    hide CommitsOk, Beside;
    CommitsMeans(atomic, s, i);
    CheckBeside(s, i, choice);
    CheckShaped(s, i, choice);
    OthersOk(atomic, s, CheckStep(s, i, choice), i);
  }

  lemma SignalledCommits(atomic: bool, s: State, i: nat, choice: Choice)
    requires CommitsOk(atomic, s) && i < |s.pc| && s.pc[i].Signalled?
    ensures CommitsOk(atomic, CheckStep(s, i, choice))
  {
    hide CommitsOk, Beside;
    CommitsMeans(atomic, s, i);
    CheckBeside(s, i, choice);
    CheckShaped(s, i, choice);
    OthersOk(atomic, s, CheckStep(s, i, choice), i);
  }

  lemma PublishCommits(atomic: bool, s: State, i: nat)
    requires CommitsOk(atomic, s) && i < |s.pc| && (s.pc[i].Publishing? || s.pc[i].Published?)
    ensures CommitsOk(atomic, CommitStep(s, i))
  {
    hide CommitsOk, Beside;
    CommitsMeans(atomic, s, i);
    CommitBeside(s, i);
    CommitShaped(s, i);
    OthersOk(atomic, s, CommitStep(s, i), i);
  }

  lemma NextCommits(atomic: bool, s: State, i: nat)
    requires CommitsOk(atomic, s) && i < |s.pc| && (s.pc[i].WaitNext? || s.pc[i].NextDone?)
    ensures CommitsOk(atomic, CommitStep(s, i))
  {
    hide CommitsOk, Beside;
    CommitsMeans(atomic, s, i);
    CommitBeside(s, i);
    CommitShaped(s, i);
    OthersOk(atomic, s, CommitStep(s, i), i);
  }

  lemma DecideCommits(atomic: bool, s: State, i: nat)
    requires CommitsOk(atomic, s) && i < |s.pc| && s.pc[i].Deciding?
    ensures CommitsOk(atomic, CommitStep(s, i))
  {
    hide CommitsOk, Beside;
    CommitsMeans(atomic, s, i);
    CommitBeside(s, i);
    CommitShaped(s, i);
    OthersOk(atomic, s, CommitStep(s, i), i);
  }

  lemma GatherCommits(atomic: bool, s: State, i: nat)
    requires CommitsOk(atomic, s) && i < |s.pc| && (Last(s.pc[i]) || s.pc[i].Gone?)
    ensures CommitsOk(atomic, GatherStep(s, i))
  {
    hide CommitsOk, Beside;
    CommitsMeans(atomic, s, i);
    GatherBeside(s, i);
    GatherShaped(s, i);
    OthersOk(atomic, s, GatherStep(s, i), i);
  }

  lemma CommitsStep(atomic: bool, s: State, a: Action)
    requires CommitsOk(atomic, s)
    ensures CommitsOk(atomic, Step(atomic, s, a))
  {
    var i := a.task;
    if i < |s.pc| {
      CommitsMeans(atomic, s, i);
      hide CommitsOk, PcOk, SlotOk, RegionStep, SizeStep, CheckStep, CommitStep, GatherStep;
      if s.pc[i].Running? { RegionCommits(atomic, s, i, a.choice); }
      else if s.pc[i].SetTest? { TestCommits(atomic, s, i); }
      else if s.pc[i].SetStore? { StoreCommits(atomic, s, i); }
      else if s.pc[i].Dying? { DieCommits(atomic, s, i); }
      else if s.pc[i].WaitPrior? || s.pc[i].Checking? { EnterCommits(atomic, s, i, a.choice); }
      else if s.pc[i].Checked? { CheckedCommits(atomic, s, i, a.choice); }
      else if s.pc[i].Signalled? { SignalledCommits(atomic, s, i, a.choice); }
      else if s.pc[i].Publishing? || s.pc[i].Published? { PublishCommits(atomic, s, i); }
      else if s.pc[i].Deciding? { DecideCommits(atomic, s, i); }
      else if AtCommit(s.pc[i]) { NextCommits(atomic, s, i); }
      else { GatherCommits(atomic, s, i); }
    }
  }

  lemma {:induction false} CommitsAlways(atomic: bool, n: nat, steps: seq<Action>)
    requires n >= 1
    ensures CommitsOk(atomic, Run(atomic, n, steps))
  {
    if steps != [] {
      CommitsAlways(atomic, n, steps[..|steps| - 1]);
      CommitsStep(atomic, Run(atomic, n, steps[..|steps| - 1]), steps[|steps| - 1]);
    }
  }

  // ----- verdicts and the size -----

  /** Some task up to `i` did not pass. */
  predicate FailedUpTo(s: State, i: nat)
    requires Shaped(s)
  {
    exists m :: 0 <= m <= i && m < s.ended && m < |s.pc| && !s.correct[m]
  }

  /** A committing task whose group shrank below itself shrank to a task that did not
      pass; one that has waited without all locks below itself has such a task below. */
  ghost predicate VerdictOk(s: State, i: nat)
    requires Shaped(s) && i < |s.pc|
  {
    var c := s.pc[i];
    && (Last(c) && s.size <= i ==> s.size < s.ended && !s.correct[s.size])
    && (c.Committing? && c.j < i ==> FailedUpTo(s, i))
  }

  ghost predicate Verdicts(s: State) {
    && Shaped(s)
    && (forall i :: s.ended <= i < |s.pc| ==> !s.correct[i])
    && (s.ended > 0 ==> s.correct[0])
    && (forall i :: 0 <= i < |s.pc| ==> VerdictOk(s, i))
  }

  lemma VerdictsMeans(s: State, i: nat)
    requires Verdicts(s) && i < |s.pc|
    ensures Shaped(s) && VerdictOk(s, i) && (i >= s.ended ==> !s.correct[i]) && (s.ended > 0 ==> s.correct[0])
  {
  }

  lemma LastEnded(s: State, k: nat)
    requires ChecksInOrder(s) && k < |s.pc| && Last(s.pc[k])
    ensures k < s.ended
  {
    ChecksMeans(s, k);
  }

  lemma VerdictsKept(s: State, s': State, i: nat)
    requires Verdicts(s) && i < |s.pc| && Shaped(s') && |s'.pc| == |s.pc| && s'.pc == s.pc[i := s'.pc[i]]
    requires s'.correct == s.correct && s'.ended == s.ended && s'.size == s.size && VerdictOk(s', i)
    ensures Verdicts(s')
  {
    forall k | 0 <= k < |s'.pc| ensures VerdictOk(s', k) { assert VerdictOk(s, k); }
  }

  /** The size is set: what a committing task has above it is not affected, and a
      task that shrinks the group below itself did not pass. */
  lemma VerdictsShrink(atomic: bool, s: State, s': State, i: nat, p: nat, die: bool)
    requires ChecksInOrder(s) && Verdicts(s) && i < |s.pc| && PcOk(atomic, s, i)
    requires s.pc[i] == SetTest(p, die) || s.pc[i] == SetStore(p, die)
    requires 1 <= p <= |s.pc| && s' == AfterSet(s.(size := p), i, die)
    ensures Verdicts(s')
  {
    assert VerdictOk(s, i);
    forall k | 0 <= k < |s'.pc| ensures VerdictOk(s', k) {
      assert VerdictOk(s, k);
      if k != i && Last(s.pc[k]) {
        LastEnded(s, k);
        ChecksMeans(s, i);
      }
    }
  }

  /** A check is signalled: it is the last one begun, so no committing task has it
      below itself. */
  lemma VerdictsSignal(s: State, s': State, i: nat, ok: bool)
    requires ChecksInOrder(s) && Verdicts(s) && i < |s.pc| && s.pc[i] == Checked(ok) && Shaped(s') && (!ok ==> i >= 1)
    requires s'.pc == s.pc[i := Signalled(ok)] && s'.correct == s.correct[i := ok]
    requires s'.ended == s.ended + 1 && s'.size == s.size
    ensures Verdicts(s')
  {
    assert i == s.ended;
    forall k | 0 <= k < |s'.pc| ensures VerdictOk(s', k) {
      assert VerdictOk(s, k);
      if m :| 0 <= m <= k && m < s.ended && m < |s.pc| && !s.correct[m] { assert !s'.correct[m]; }
    }
  }

  lemma RegionVerdicts(s: State, i: nat, choice: Choice)
    requires ChecksInOrder(s) && Verdicts(s) && i < |s.pc| && s.pc[i].Running?
    ensures Verdicts(RegionStep(s, i, choice))
  {
    ChecksMeans(s, i);
    hide ChecksInOrder, Verdicts;
    VerdictsMeans(s, i);
    RegionShaped(s, i, choice);
    VerdictsKept(s, RegionStep(s, i, choice), i);
  }

  lemma SizeVerdicts(atomic: bool, s: State, i: nat)
    requires ChecksInOrder(s) && CommitsOk(atomic, s) && Verdicts(s) && i < |s.pc| && AtSize(s.pc[i])
    ensures Verdicts(SizeStep(atomic, s, i))
  {
    CommitsMeans(atomic, s, i);
    hide ChecksInOrder, CommitsOk, Verdicts;
    VerdictsMeans(s, i);
    SizeShaped(atomic, s, i);
    var s' := SizeStep(atomic, s, i);
    if (atomic && s.pc[i].SetTest? && 1 <= s.pc[i].p < s.size) || s.pc[i].SetStore? {
      VerdictsShrink(atomic, s, s', i, s.pc[i].p, s.pc[i].die);
    } else {
      VerdictsKept(s, s', i);
    }
  }

  lemma CheckVerdicts(atomic: bool, s: State, i: nat, choice: Choice)
    requires ChecksInOrder(s) && CommitsOk(atomic, s) && Verdicts(s) && i < |s.pc| && AtCheck(s.pc[i])
    ensures Verdicts(CheckStep(s, i, choice))
  {
    ChecksMeans(s, i);
    CommitsMeans(atomic, s, i);
    hide ChecksInOrder, CommitsOk, Verdicts;
    VerdictsMeans(s, i);
    CheckShaped(s, i, choice);
    var s' := CheckStep(s, i, choice);
    if s.pc[i].Checked? { VerdictsSignal(s, s', i, s.pc[i].ok); } else { VerdictsKept(s, s', i); }
  }

  lemma CommitVerdicts(s: State, i: nat)
    requires Verdicts(s) && i < |s.pc| && AtCommit(s.pc[i])
    ensures Verdicts(CommitStep(s, i))
  {
    hide Verdicts;
    VerdictsMeans(s, i);
    CommitShaped(s, i);
    VerdictsKept(s, CommitStep(s, i), i);
  }

  lemma GatherVerdicts(s: State, i: nat)
    requires Verdicts(s) && i < |s.pc| && (Last(s.pc[i]) || s.pc[i].Gone?)
    ensures Verdicts(GatherStep(s, i))
  {
    hide Verdicts;
    VerdictsMeans(s, i);
    GatherShaped(s, i);
    VerdictsKept(s, GatherStep(s, i), i);
  }

  lemma VerdictsStep(atomic: bool, s: State, a: Action)
    requires ChecksInOrder(s) && CommitsOk(atomic, s) && Verdicts(s)
    ensures Verdicts(Step(atomic, s, a))
  {
    var i := a.task;
    if i < |s.pc| {
      VerdictsMeans(s, i);
      hide ChecksInOrder, CommitsOk, Verdicts, RegionStep, SizeStep, CheckStep, CommitStep, GatherStep;
      if s.pc[i].Running? { RegionVerdicts(s, i, a.choice); }
      else if AtSize(s.pc[i]) { SizeVerdicts(atomic, s, i); }
      else if AtCheck(s.pc[i]) { CheckVerdicts(atomic, s, i, a.choice); }
      else if AtCommit(s.pc[i]) { CommitVerdicts(s, i); }
      else { GatherVerdicts(s, i); }
    }
  }

  lemma {:induction false} VerdictsAlways(atomic: bool, n: nat, steps: seq<Action>)
    requires n >= 1
    ensures Verdicts(Run(atomic, n, steps))
  {
    if steps != [] {
      var before := steps[..|steps| - 1];
      VerdictsAlways(atomic, n, before);
      ChecksAlways(atomic, n, before);
      CommitsAlways(atomic, n, before);
      VerdictsStep(atomic, Run(atomic, n, before), steps[|steps| - 1]);
    }
  }

  // ----- when the group has waited -----

  /** In every run with an atomic size: when task `k` has waited for the group, every
      task up to `k` has passed its check if and only if the size is still `k + 1`;
      and then every task below `k` has published its patch. */
  lemma WholeGroupExactly(n: nat, steps: seq<Action>, k: nat)
    requires n >= 1 && k < n && Run(true, n, steps).pc[k].Committing?
    ensures var s := Run(true, n, steps);
      && ((forall j :: 0 <= j <= k ==> s.correct[j]) <==> s.size == k + 1)
      && (s.size == k + 1 ==> forall j :: 0 <= j < k ==> s.published[j])
  {
    var s := Run(true, n, steps);
    CommitsAlways(true, n, steps);
    CommitsMeans(true, s, k);
    VerdictsAlways(true, n, steps);
    VerdictsMeans(s, k);
    if s.size == k + 1 {
      forall j | 0 <= j <= k ensures s.correct[j] && (j < k ==> s.published[j]) { CommitsMeans(true, s, j); }
    }
  }

  /** Task `k` has waited for a group that ends with it, over a task that did not
      pass its check. */
  predicate OverFailure(s: State, k: nat) {
    && Shaped(s) && k < |s.pc| && s.pc[k].Committing? && s.size == k + 1
    && exists j :: 0 <= j <= k && !s.correct[j]
  }

  /** A group that ends with task `k` is sound: it has at most two tasks, or its full
      size, or its size is tested and set in one step. */
  predicate Sound(atomic: bool, n: nat, k: nat) { atomic || k <= 1 || k + 1 == n }

  /** A task up to which all have passed, below one that has waited for them, has
      published, unless it has committed the group itself. */
  lemma LockOf(atomic: bool, s: State, k: nat, j: nat)
    requires CommitsOk(atomic, s) && Verdicts(s) && j < k < |s.pc| && s.pc[k].Committing? && !FailedUpTo(s, k)
    requires s.correct[j]
    ensures s.published[j] || s.pc[j].Committed?
  {
    CommitsMeans(atomic, s, k);
    CommitsMeans(atomic, s, j);
    VerdictsMeans(s, k);
  }

  /** When task `k` has waited for a sound group that ends with it, every task up to
      `k` has passed its check and every task below it has published its patch. */
  lemma SoundGroup(atomic: bool, n: nat, steps: seq<Action>, k: nat)
    requires n >= 1 && k < n && Sound(atomic, n, k)
    requires Run(atomic, n, steps).pc[k].Committing? && Run(atomic, n, steps).size == k + 1
    ensures var s := Run(atomic, n, steps);
      (forall j :: 0 <= j <= k ==> s.correct[j]) && (forall j :: 0 <= j < k ==> s.published[j])
  {
    if atomic {
      WholeGroupExactly(n, steps, k);
    } else {
      FullGroup(n, steps, k);
    }
  }

  /** In a group of its full size nobody has shrunk it, and of two tasks the first
      always passes. */
  lemma GroupPassed(s: State, k: nat, j: nat)
    requires CommitsOk(false, s) && Verdicts(s) && j <= k < |s.pc| && s.pc[k].Committing? && k < s.ended
    requires s.size == k + 1 && (k <= 1 || k + 1 == |s.pc|)
    ensures s.correct[j] && (j < k ==> !s.pc[j].Committed?)
  {
    VerdictsMeans(s, k);
    CommitsMeans(false, s, k);
    CommitsMeans(false, s, j);
  }

  lemma FullGroup(n: nat, steps: seq<Action>, k: nat)
    requires n >= 1 && k < n && (k <= 1 || k + 1 == n)
    requires Run(false, n, steps).pc[k].Committing? && Run(false, n, steps).size == k + 1
    ensures var s := Run(false, n, steps);
      (forall j :: 0 <= j <= k ==> s.correct[j]) && (forall j :: 0 <= j < k ==> s.published[j])
  {
    var s := Run(false, n, steps);
    CommitsAlways(false, n, steps);
    VerdictsAlways(false, n, steps);
    ChecksAlways(false, n, steps);
    LastEnded(s, k);
    hide CommitsOk, Verdicts, ChecksInOrder, Run;
    forall j | 0 <= j <= k ensures s.correct[j] && (j < k ==> !s.pc[j].Committed?) { GroupPassed(s, k, j); }
    forall j | 0 <= j < k ensures s.published[j] { LockOf(false, s, k, j); }
  }

  /** A sound group is never waited for over a failed check. */
  lemma NoFailure(atomic: bool, n: nat, steps: seq<Action>, k: nat)
    requires n >= 1 && k < n && Sound(atomic, n, k)
    ensures !OverFailure(Run(atomic, n, steps), k)
  {
    var s := Run(atomic, n, steps);
    if s.pc[k].Committing? && s.size == k + 1 { SoundGroup(atomic, n, steps, k); }
  }
}
