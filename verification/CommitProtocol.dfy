/** The commit protocol of a task group: every interleaving of the steps the
    tasks take over the shared locks and the partial group size. */
module CommitProtocol {

  /** Where a task stands. */
  datatype Pc =
    | Running                    // in its region
    | SetTest(p: nat, die: bool) // in partial_group_set_size(p), before the test
    | SetStore(p: nat, die: bool)// the test passed, before the store
    | Dying                      // group shrunk, before signal_commit_done
    | Gone                       // exited
    | WaitPrior                  // in wait_prior_check_done
    | Checking                   // reading and extending the write union
    | Checked(ok: bool)          // before signal_check_done
    | Signalled(ok: bool)        // after it
    | Publishing                 // in data_commit
    | Published                  // before signal_commit_done
    | WaitNext                   // in wait_next_commit_done, before the acquire
    | NextDone                   // before the release
    | Deciding                   // before the second size test
    | Gathering(j: nat)          // in wait_group_commit_done, before the test for j
    | Acquiring(j: nat)          // the test passed, before the acquire
    | Committing(j: nat)         // wait_group_commit_done returned after j locks
    | Committed(j: nat)          // the group is committed, after j locks

  /** Shared state and all tasks. A lock is true while held. The last three are
      history: tasks whose writes are in the union, checks begun, checks signalled,
      tasks that published, tasks that signalled a commit. */
  datatype State = State(
    size: nat,
    checked: seq<bool>,
    correct: seq<bool>,
    committed: seq<bool>,
    pc: seq<Pc>,
    union: seq<nat>,
    begun: nat,
    ended: nat,
    published: seq<bool>,
    posted: seq<bool>)

  /** What a task does next, where it has a choice. */
  datatype Choice = Go | Fail | AbortSelf | AbortNext

  datatype Action = Action(task: nat, choice: Choice)

  /** The group as `ppr_sync_data_reset` leaves it, all tasks running. */
  function Init(n: nat): State
    requires n >= 1
  {
    var held, unset := seq(n, _ => true), seq(n, _ => false);
    State(n, held, unset, held, seq(n, _ => Running), [], 0, 0, unset, unset)
  }

  predicate Shaped(s: State) {
    && |s.pc| >= 1 && |s.checked| == |s.correct| == |s.committed| == |s.published| == |s.posted| == |s.pc|
    && 1 <= s.size <= |s.pc|
  }

  function At(s: State, i: nat, c: Pc): State
    requires i < |s.pc|
  {
    s.(pc := s.pc[i := c])
  }

  /** `signal_commit_done`. */
  function SignalCommit(s: State, i: nat): State
    requires Shaped(s) && i < |s.pc|
  {
    s.(committed := s.committed[i := false], posted := s.posted[i := true])
  }

  /** After the size was tested and, if larger, set. */
  function AfterSet(s: State, i: nat, die: bool): State
    requires i < |s.pc|
  {
    At(s, i, if die then Dying else Running)
  }

  /** In the region: it ends, or the task aborts itself or the ones after it. */
  function RegionStep(s: State, i: nat, choice: Choice): State
    requires Shaped(s) && i < |s.pc|
  {
    if choice == AbortSelf then At(s, i, if i == 0 then SetTest(1, false) else SetTest(i, true))
    else if choice == AbortNext then At(s, i, SetTest(i + 1, false))
    else if i >= s.size then At(s, i, Gone)
    else if i == 0 then At(s.(begun := s.begun + 1), i, Checking)
    else At(s, i, WaitPrior)
  }

  /** `partial_group_set_size` and the rest of `BOP_abort_spec`. With `atomic`, the
      size is tested and set in one step. */
  function SizeStep(atomic: bool, s: State, i: nat): State
    requires Shaped(s) && i < |s.pc|
  {
    match s.pc[i]
    case SetTest(p, die) =>
      if s.size <= p || p < 1 then AfterSet(s, i, die)
      else if atomic then AfterSet(s.(size := p), i, die)
      else At(s, i, SetStore(p, die))
    case SetStore(p, die) => if 1 <= p <= |s.pc| then AfterSet(s.(size := p), i, die) else s
    case Dying => At(SignalCommit(s, i), i, Gone)
    case _ => s
  }

  /** `_ppr_check_correctness`. Recording the writes may abort the task, with some
      of them in the union already. */
  function CheckStep(s: State, i: nat, choice: Choice): State
    requires Shaped(s) && i < |s.pc|
  {
    match s.pc[i]
    case WaitPrior =>
      if i >= 1 && !s.checked[i - 1] then At(s.(checked := s.checked[i - 1 := true], begun := s.begun + 1), i, Checking)
      else s
    case Checking =>
      if choice == Fail && i != 0 then At(s, i, Checked(false))
      else if choice == AbortSelf && i != 0 then At(s.(union := s.union + [i]), i, SetTest(i, true))
      else At(s.(union := s.union + [i]), i, Checked(true))
    case Checked(ok) =>
      At(s.(correct := s.correct[i := ok], checked := s.checked[i := false], ended := s.ended + 1), i, Signalled(ok))
    case Signalled(ok) =>
      if !ok then At(s, i, SetTest(i, true)) else At(s, i, if i + 1 < s.size then Publishing else Deciding)
    case _ => s
  }

  /** The rest of `ppr_task_commit`. */
  function CommitStep(s: State, i: nat): State
    requires Shaped(s) && i < |s.pc|
  {
    match s.pc[i]
    case Publishing => At(s.(published := s.published[i := true]), i, Published)
    case Published => At(SignalCommit(s, i), i, WaitNext)
    case WaitNext =>
      if i + 1 < |s.pc| && !s.committed[i + 1] then At(s.(committed := s.committed[i + 1 := true]), i, NextDone)
      else s
    case NextDone => if i + 1 < |s.pc| then At(s.(committed := s.committed[i + 1 := false]), i, Deciding) else s
    case Deciding => At(s, i, if i + 1 == s.size && i != 0 then Gathering(0) else Gone)
    case _ => s
  }

  /** `wait_group_commit_done` and the group commit. */
  function GatherStep(s: State, i: nat): State
    requires Shaped(s) && i < |s.pc|
  {
    match s.pc[i]
    case Gathering(j) => At(s, i, if j + 1 < s.size then Acquiring(j) else Committing(j))
    case Acquiring(j) =>
      if j < |s.pc| && !s.committed[j] then At(s.(committed := s.committed[j := true]), i, Gathering(j + 1)) else s
    case Committing(j) => At(SignalCommit(s, i), i, Committed(j))
    case _ => s
  }

  predicate AtSize(c: Pc) { c.SetTest? || c.SetStore? || c.Dying? }

  predicate AtCheck(c: Pc) { c.WaitPrior? || c.Checking? || c.Checked? || c.Signalled? }

  predicate AtCommit(c: Pc) { c.Publishing? || c.Published? || c.WaitNext? || c.NextDone? || c.Deciding? }

  /** One step of a task; a step that has to wait changes nothing. */
  function Step(atomic: bool, s: State, a: Action): State
    requires Shaped(s)
  {
    var i := a.task;
    if i >= |s.pc| then s
    else if s.pc[i].Running? then RegionStep(s, i, a.choice)
    else if AtSize(s.pc[i]) then SizeStep(atomic, s, i)
    else if AtCheck(s.pc[i]) then CheckStep(s, i, a.choice)
    else if AtCommit(s.pc[i]) then CommitStep(s, i)
    else GatherStep(s, i)
  }

  lemma RegionShaped(s: State, i: nat, choice: Choice)
    requires Shaped(s) && i < |s.pc|
    ensures Shaped(RegionStep(s, i, choice)) && |RegionStep(s, i, choice).pc| == |s.pc|
  {
  }

  lemma SizeShaped(atomic: bool, s: State, i: nat)
    requires Shaped(s) && i < |s.pc|
    ensures Shaped(SizeStep(atomic, s, i)) && |SizeStep(atomic, s, i).pc| == |s.pc|
  {
  }

  lemma CheckShaped(s: State, i: nat, choice: Choice)
    requires Shaped(s) && i < |s.pc|
    ensures Shaped(CheckStep(s, i, choice)) && |CheckStep(s, i, choice).pc| == |s.pc|
  {
  }

  lemma CommitShaped(s: State, i: nat)
    requires Shaped(s) && i < |s.pc|
    ensures Shaped(CommitStep(s, i)) && |CommitStep(s, i).pc| == |s.pc|
  {
  }

  lemma GatherShaped(s: State, i: nat)
    requires Shaped(s) && i < |s.pc|
    ensures Shaped(GatherStep(s, i)) && |GatherStep(s, i).pc| == |s.pc|
  {
  }

  lemma StepShaped(atomic: bool, s: State, a: Action)
    requires Shaped(s)
    ensures Shaped(Step(atomic, s, a)) && |Step(atomic, s, a).pc| == |s.pc|
  {
    var i := a.task;
    if i < |s.pc| {
      hide RegionStep, SizeStep, CheckStep, CommitStep, GatherStep, Shaped;
      RegionShaped(s, i, a.choice);
      SizeShaped(atomic, s, i);
      CheckShaped(s, i, a.choice);
      CommitShaped(s, i);
      GatherShaped(s, i);
    }
  }

  /** The state after a schedule of steps. */
  function Run(atomic: bool, n: nat, steps: seq<Action>): (s: State)
    requires n >= 1
    ensures Shaped(s) && |s.pc| == n
  {
    if steps == [] then Init(n)
    else
      var s := Run(atomic, n, steps[..|steps| - 1]);
      StepShaped(atomic, s, steps[|steps| - 1]);
      Step(atomic, s, steps[|steps| - 1])
  }

  // ----- checks -----

  /** Not yet at its check. */
  predicate Before(c: Pc) { c.Running? || c.WaitPrior? || ((c.SetTest? || c.SetStore?) && !c.die) }

  predicate InCheck(c: Pc) { c.Checking? || c.Checked? }

  /** What holds of the checks in every reachable state: begun in order, each after
      the one before was signalled; the one free lock is that of the last check
      signalled, until the next task takes it. */
  ghost predicate ChecksInOrder(s: State) {
    && Shaped(s)
    && s.ended <= s.begun <= s.ended + 1 && s.begun <= |s.pc|
    && (forall i :: 0 <= i < |s.pc| && InCheck(s.pc[i]) ==> s.ended <= i < s.begun)
    && (s.ended < s.begun ==> InCheck(s.pc[s.ended]) || Leaving(s.pc[s.ended]))
    && (forall i :: 0 <= i < s.begun ==> !Before(s.pc[i]))
    && (forall i :: s.begun <= i < |s.pc| ==> Before(s.pc[i]) || Leaving(s.pc[i]))
    && (forall i :: 0 <= i < |s.pc| ==> (!s.checked[i] <==> i + 1 == s.ended && s.begun == s.ended))
  }

  /** What holds of the write union: earlier tasks in order; of those whose check
      was signalled, exactly the ones that passed. */
  ghost predicate UnionInOrder(s: State) {
    && Shaped(s)
    && (forall k :: 0 <= k < |s.union| ==> s.union[k] < s.begun && InUnion(s, s.union[k]))
    && (forall k, l :: 0 <= k < l < |s.union| ==> s.union[k] < s.union[l])
    && (forall j :: 0 <= j < s.ended && j < |s.pc| ==> (s.correct[j] <==> j in s.union))
    && (forall i :: 0 <= i < |s.pc| && s.pc[i] == Checked(true) ==> i in s.union)
  }

  /** A task in the union was checked, or is about to signal it, or died recording. */
  predicate InUnion(s: State, j: nat) {
    j < s.ended || (j < |s.pc| && (s.pc[j] == Checked(true) || Leaving(s.pc[j])))
  }

  /** On its way out without a check. */
  predicate Leaving(c: Pc) { c.Gone? || c.Dying? || ((c.SetTest? || c.SetStore?) && c.die) }

  /** Task `i` moved on without touching what the checks depend on. */
  lemma ChecksKept(s: State, s': State, i: nat, c: Pc)
    requires ChecksInOrder(s) && i < |s.pc| && Shaped(s') && s'.pc == s.pc[i := c]
    requires s'.begun == s.begun && s'.ended == s.ended && s'.checked == s.checked
    requires InCheck(c) ==> InCheck(s.pc[i])
    requires InCheck(s.pc[i]) ==> InCheck(c) || Leaving(c)
    requires Before(c) ==> Before(s.pc[i])
    requires Leaving(s.pc[i]) ==> Leaving(c)
    requires Before(s.pc[i]) ==> Before(c) || Leaving(c)
    ensures ChecksInOrder(s')
  {
  }

  lemma RegionChecks(s: State, i: nat, choice: Choice)
    requires ChecksInOrder(s) && i < |s.pc| && s.pc[i].Running?
    ensures ChecksInOrder(RegionStep(s, i, choice))
  {
    hide ChecksInOrder;
    ChecksMeans(s, i);
    RegionShaped(s, i, choice);
    hide Shaped;
    var s' := RegionStep(s, i, choice);
    if choice == Go || choice == Fail {
      if i < s.size && i == 0 {
        ChecksBegin(s, s', i);
      } else {
        ChecksKept(s, s', i, s'.pc[i]);
      }
    } else {
      ChecksKept(s, s', i, s'.pc[i]);
    }
  }

  lemma ChecksMeans(s: State, i: nat)
    requires ChecksInOrder(s) && i < |s.pc|
    ensures Shaped(s)
    ensures Before(s.pc[i]) ==> i >= s.begun
    ensures InCheck(s.pc[i]) ==> i == s.ended && s.begun == s.ended + 1
    ensures !s.checked[i] <==> i + 1 == s.ended && s.begun == s.ended
    ensures i == 0 && Before(s.pc[i]) ==> s.begun == 0 && s.ended == 0
    ensures i < s.ended || InCheck(s.pc[i]) || Before(s.pc[i]) || Leaving(s.pc[i])
    ensures s.ended <= s.begun <= s.ended + 1
  {
    assert i < s.begun ==> i < s.ended || i == s.ended;
  }

  /** The next check begins: the lock of the one before is taken. */
  lemma ChecksBegin(s: State, s': State, i: nat)
    requires ChecksInOrder(s) && i < |s.pc| && i == s.begun == s.ended
    requires s' == s.(checked := s'.checked, begun := s.begun + 1, pc := s.pc[i := Checking])
    requires s'.checked == if i == 0 then s.checked else s.checked[i - 1 := true]
    ensures ChecksInOrder(s')
  {
  }

  lemma ChecksSignal(s: State, s': State, i: nat, ok: bool)
    requires ChecksInOrder(s) && i < |s.pc| && s.pc[i].Checked? && Shaped(s')
    requires s'.pc == s.pc[i := Signalled(ok)] && s'.checked == s.checked[i := false] && s'.ended == s.ended + 1
    requires s'.begun == s.begun
    ensures ChecksInOrder(s')
  {
  }

  lemma CheckChecks(s: State, i: nat, choice: Choice)
    requires ChecksInOrder(s) && i < |s.pc| && AtCheck(s.pc[i])
    ensures ChecksInOrder(CheckStep(s, i, choice))
  {
    hide ChecksInOrder;
    ChecksMeans(s, i);
    CheckShaped(s, i, choice);
    var s' := CheckStep(s, i, choice);
    match s.pc[i] {
      case WaitPrior =>
        if i >= 1 {
          ChecksMeans(s, i - 1);
          if !s.checked[i - 1] { ChecksBegin(s, s', i); }
        }
      case Checking => ChecksKept(s, s', i, s'.pc[i]);
      case Checked(ok) => ChecksSignal(s, s', i, ok);
      case Signalled(ok) => ChecksKept(s, s', i, s'.pc[i]);
    }
  }

  lemma SizeChecks(atomic: bool, s: State, i: nat)
    requires ChecksInOrder(s) && i < |s.pc| && AtSize(s.pc[i])
    ensures ChecksInOrder(SizeStep(atomic, s, i))
  {
    hide ChecksInOrder;
    ChecksMeans(s, i);
    SizeShaped(atomic, s, i);
    var s' := SizeStep(atomic, s, i);
    ChecksKept(s, s', i, s'.pc[i]);
  }

  lemma CommitChecks(s: State, i: nat)
    requires ChecksInOrder(s) && i < |s.pc| && AtCommit(s.pc[i])
    ensures ChecksInOrder(CommitStep(s, i))
  {
    hide ChecksInOrder;
    ChecksMeans(s, i);
    CommitShaped(s, i);
    var s' := CommitStep(s, i);
    ChecksKept(s, s', i, s'.pc[i]);
  }

  lemma GatherChecks(s: State, i: nat)
    requires ChecksInOrder(s) && i < |s.pc| && (s.pc[i].Gathering? || s.pc[i].Acquiring? || s.pc[i].Committing?)
    ensures ChecksInOrder(GatherStep(s, i))
  {
    hide ChecksInOrder;
    ChecksMeans(s, i);
    GatherShaped(s, i);
    var s' := GatherStep(s, i);
    ChecksKept(s, s', i, s'.pc[i]);
  }

  lemma ChecksStep(atomic: bool, s: State, a: Action)
    requires ChecksInOrder(s)
    ensures ChecksInOrder(Step(atomic, s, a))
  {
    var i := a.task;
    if i < |s.pc| {
      hide ChecksInOrder, RegionStep, SizeStep, CheckStep, CommitStep;
      if s.pc[i].Running? { RegionChecks(s, i, a.choice); }
      else if AtSize(s.pc[i]) { SizeChecks(atomic, s, i); }
      else if AtCheck(s.pc[i]) { CheckChecks(s, i, a.choice); }
      else if AtCommit(s.pc[i]) { CommitChecks(s, i); }
      else if s.pc[i].Gone? || s.pc[i].Committed? { }
      else { GatherChecks(s, i); }
    }
  }

  // ----- the write union -----

  /** A step that leaves the union and the verdicts alone. */
  lemma UnionKept(s: State, s': State, i: nat, c: Pc)
    requires UnionInOrder(s) && i < |s.pc| && Shaped(s') && s'.pc == s.pc[i := c]
    requires s'.union == s.union && s'.correct == s.correct && s'.ended == s.ended && s'.begun >= s.begun
    requires s.pc[i] != Checked(true) && c != Checked(true) && (Leaving(s.pc[i]) ==> Leaving(c))
    ensures UnionInOrder(s')
  {
    forall k | 0 <= k < |s'.union| ensures s'.union[k] < s'.begun && InUnion(s', s'.union[k]) {
      assert InUnion(s, s.union[k]);
    }
  }

  /** The task being checked is not in the union yet. */
  lemma NotYetIn(s: State, i: nat)
    requires ChecksInOrder(s) && UnionInOrder(s) && i < |s.pc| && s.pc[i].Checking?
    ensures forall k :: 0 <= k < |s.union| ==> s.union[k] < i
  {
    forall k | 0 <= k < |s.union| ensures s.union[k] < i {
      assert InUnion(s, s.union[k]);
    }
  }

  /** The task's writes join the union; it goes on, or dies. */
  lemma UnionGrows(s: State, s': State, i: nat, c: Pc)
    requires ChecksInOrder(s) && UnionInOrder(s) && i < |s.pc| && s.pc[i].Checking?
      && (c == Checked(true) || Leaving(c))
    requires s' == At(s.(union := s.union + [i]), i, c)
    ensures UnionInOrder(s')
  {
    NotYetIn(s, i);
    forall k | 0 <= k < |s'.union| ensures s'.union[k] < s'.begun && InUnion(s', s'.union[k]) {
      assert k < |s.union| ==> InUnion(s, s.union[k]);
    }
    assert s'.union[|s.union|] == i;
  }

  lemma UnionSignal(s: State, s': State, i: nat, ok: bool)
    requires ChecksInOrder(s) && UnionInOrder(s) && i < |s.pc| && s.pc[i] == Checked(ok) && Shaped(s')
    requires s'.pc == s.pc[i := Signalled(ok)] && s'.correct == s.correct[i := ok]
    requires s'.union == s.union && s'.begun == s.begun && s'.ended == s.ended + 1
    ensures UnionInOrder(s')
  {
    assert i == s.ended;
    forall k | 0 <= k < |s'.union|
      ensures s'.union[k] < s'.begun && InUnion(s', s'.union[k]) && (s'.union[k] == i ==> ok)
    {
      assert InUnion(s, s.union[k]);
    }
  }

  lemma CheckUnion(s: State, i: nat, choice: Choice)
    requires ChecksInOrder(s) && UnionInOrder(s) && i < |s.pc| && AtCheck(s.pc[i])
    ensures UnionInOrder(CheckStep(s, i, choice))
  {
    hide ChecksInOrder, UnionInOrder;
    ChecksMeans(s, i);
    CheckShaped(s, i, choice);
    var s' := CheckStep(s, i, choice);
    match s.pc[i] {
      case WaitPrior => if i >= 1 && !s.checked[i - 1] { UnionKept(s, s', i, Checking); }
      case Checking =>
        if choice == Fail && i != 0 { UnionKept(s, s', i, s'.pc[i]); } else { UnionGrows(s, s', i, s'.pc[i]); }
      case Checked(ok) => UnionSignal(s, s', i, ok);
      case Signalled(ok) => UnionKept(s, s', i, s'.pc[i]);
    }
  }

  lemma RegionUnion(s: State, i: nat, choice: Choice)
    requires UnionInOrder(s) && i < |s.pc| && s.pc[i].Running?
    ensures UnionInOrder(RegionStep(s, i, choice))
  {
    UnionShaped(s);
    hide UnionInOrder;
    RegionShaped(s, i, choice);
    UnionKept(s, RegionStep(s, i, choice), i, RegionStep(s, i, choice).pc[i]);
  }

  lemma SizeUnion(atomic: bool, s: State, i: nat)
    requires UnionInOrder(s) && i < |s.pc| && AtSize(s.pc[i])
    ensures UnionInOrder(SizeStep(atomic, s, i))
  {
    UnionShaped(s);
    hide UnionInOrder;
    SizeShaped(atomic, s, i);
    UnionKept(s, SizeStep(atomic, s, i), i, SizeStep(atomic, s, i).pc[i]);
  }

  lemma CommitUnion(s: State, i: nat)
    requires UnionInOrder(s) && i < |s.pc| && AtCommit(s.pc[i])
    ensures UnionInOrder(CommitStep(s, i))
  {
    UnionShaped(s);
    hide UnionInOrder;
    CommitShaped(s, i);
    UnionKept(s, CommitStep(s, i), i, CommitStep(s, i).pc[i]);
  }

  lemma GatherUnion(s: State, i: nat)
    requires UnionInOrder(s) && i < |s.pc| && (s.pc[i].Gathering? || s.pc[i].Acquiring? || s.pc[i].Committing?)
    ensures UnionInOrder(GatherStep(s, i))
  {
    UnionShaped(s);
    hide UnionInOrder;
    GatherShaped(s, i);
    UnionKept(s, GatherStep(s, i), i, GatherStep(s, i).pc[i]);
  }

  lemma UnionShaped(s: State)
    requires UnionInOrder(s)
    ensures Shaped(s)
  {
  }

  lemma UnionStep(atomic: bool, s: State, a: Action)
    requires ChecksInOrder(s) && UnionInOrder(s)
    ensures UnionInOrder(Step(atomic, s, a))
  {
    var i := a.task;
    UnionShaped(s);
    if i < |s.pc| {
      hide ChecksInOrder, UnionInOrder, RegionStep, SizeStep, CheckStep, CommitStep;
      if s.pc[i].Running? { RegionUnion(s, i, a.choice); }
      else if AtSize(s.pc[i]) { SizeUnion(atomic, s, i); }
      else if AtCheck(s.pc[i]) { CheckUnion(s, i, a.choice); }
      else if AtCommit(s.pc[i]) { CommitUnion(s, i); }
      else if s.pc[i].Gone? || s.pc[i].Committed? { }
      else { GatherUnion(s, i); }
    }
  }

  lemma {:induction false} ChecksAlways(atomic: bool, n: nat, steps: seq<Action>)
    requires n >= 1
    ensures ChecksInOrder(Run(atomic, n, steps)) && UnionInOrder(Run(atomic, n, steps))
  {
    if steps != [] {
      var s := Run(atomic, n, steps[..|steps| - 1]);
      ChecksAlways(atomic, n, steps[..|steps| - 1]);
      ChecksStep(atomic, s, steps[|steps| - 1]);
      UnionStep(atomic, s, steps[|steps| - 1]);
    }
  }

  /** In every run, whether or not the size is set atomically: at most one task is
      checking; all before it have been checked, none after it has begun; and the
      union it reads holds the writes of exactly the earlier tasks that passed. */
  lemma OneCheckAtATime(atomic: bool, n: nat, steps: seq<Action>, i: nat)
    requires n >= 1 && i < n && InCheck(Run(atomic, n, steps).pc[i])
    ensures var s := Run(atomic, n, steps);
      && s.ended == i
      && (forall j :: 0 <= j < n && j != i ==> !InCheck(s.pc[j]))
      && (forall j :: 0 <= j < i ==> !Before(s.pc[j]))
      && (forall j :: i < j < n ==> Before(s.pc[j]) || Leaving(s.pc[j]))
      && (forall j :: 0 <= j < i ==> (j in s.union <==> s.correct[j]))
      && (forall k :: 0 <= k < |s.union| ==> s.union[k] < i || (s.union[k] == i && s.pc[i].Checked?))
      && (forall k, l :: 0 <= k < l < |s.union| ==> s.union[k] < s.union[l])
  {
    ChecksAlways(atomic, n, steps);
    var s := Run(atomic, n, steps);
    forall k | 0 <= k < |s.union| ensures s.union[k] < i || (s.union[k] == i && s.pc[i].Checked?) {
      assert InUnion(s, s.union[k]);
    }
  }

  /** In every run: of the tasks whose check was signalled, the union holds exactly
      those that passed. */
  lemma UnionHoldsPassed(atomic: bool, n: nat, steps: seq<Action>, j: nat)
    requires n >= 1 && j < Run(atomic, n, steps).ended
    ensures j < n && (Run(atomic, n, steps).correct[j] <==> j in Run(atomic, n, steps).union)
  {
    ChecksAlways(atomic, n, steps);
  }

  // ----- the group size -----

  /** No task is between a size test and its store. */
  ghost predicate NoneStoring(s: State) { forall i :: 0 <= i < |s.pc| ==> !s.pc[i].SetStore? }

  /** Checks, commits and the wait for the group do not touch the size. */
  lemma SizeKept(s: State, i: nat, choice: Choice)
    requires Shaped(s) && i < |s.pc|
    ensures KeepsSize(s, CheckStep(s, i, choice)) && KeepsSize(s, CommitStep(s, i)) && KeepsSize(s, GatherStep(s, i))
  {
  }

  predicate KeepsSize(s: State, s': State) {
    s'.size == s.size && |s'.pc| == |s.pc| && forall k :: 0 <= k < |s.pc| && s'.pc[k].SetStore? ==> s'.pc[k] == s.pc[k]
  }

  lemma StepShrinks(s: State, a: Action)
    requires Shaped(s) && NoneStoring(s)
    ensures Step(true, s, a).size <= s.size && NoneStoring(Step(true, s, a))
  {
    hide CheckStep, CommitStep, GatherStep;
    if a.task < |s.pc| { SizeKept(s, a.task, a.choice); }
  }

  lemma {:induction false} NeverStoring(n: nat, steps: seq<Action>)
    requires n >= 1
    ensures NoneStoring(Run(true, n, steps))
  {
    if steps != [] {
      NeverStoring(n, steps[..|steps| - 1]);
      StepShrinks(Run(true, n, steps[..|steps| - 1]), steps[|steps| - 1]);
    }
  }

  /** With an atomic test and set, the size never grows along a run. */
  lemma {:induction false} SizeNeverGrows(n: nat, steps: seq<Action>, k: nat)
    requires n >= 1 && k <= |steps|
    ensures Run(true, n, steps).size <= Run(true, n, steps[..k]).size
  {
    var m := |steps|;
    if k == m {
      assert steps[..k] == steps;
    } else {
      assert steps[..m - 1][..k] == steps[..k];
      SizeNeverGrows(n, steps[..m - 1], k);
      NeverStoring(n, steps[..m - 1]);
      StepShrinks(Run(true, n, steps[..m - 1]), steps[m - 1]);
    }
  }

  /** Task `i` is in its region, or on its way out, when the group has shrunk below it,
      and none of its writes are in the union. */
  ghost predicate Late(s: State, i: nat) {
    && Shaped(s) && i < |s.pc| && s.size <= i && i !in s.union
    && (s.pc[i].Running? || AtSize(s.pc[i]) || s.pc[i].Gone?)
  }

  lemma LateStays(s: State, a: Action, i: nat)
    requires Late(s, i) && NoneStoring(s)
    ensures Late(Step(true, s, a), i)
  {
    StepShrinks(s, a);
    StepShaped(true, s, a);
  }

  lemma NotInYet(n: nat, steps: seq<Action>, i: nat)
    requires n >= 1 && i < n && Run(true, n, steps).size <= i && Run(true, n, steps).pc[i].Running?
    ensures Late(Run(true, n, steps), i)
  {
    ChecksAlways(true, n, steps);
    ChecksMeans(Run(true, n, steps), i);
  }

  /** With an atomic size, a task whose region ends after the group shrank below it
      takes no part: in every continuation it begins no check, and none of its writes
      come into the union. */
  lemma {:induction false} LateTaskLeaves(n: nat, steps: seq<Action>, k: nat, i: nat)
    requires n >= 1 && k <= |steps| && i < n
    requires Run(true, n, steps[..k]).size <= i && Run(true, n, steps[..k]).pc[i].Running?
    ensures Late(Run(true, n, steps), i)
  {
    hide Late, NoneStoring, Step;
    var m := |steps|;
    if k == m {
      assert steps[..k] == steps;
      NotInYet(n, steps, i);
    } else {
      assert steps[..m - 1][..k] == steps[..k];
      LateTaskLeaves(n, steps[..m - 1], k, i);
      NeverStoring(n, steps[..m - 1]);
      LateStays(Run(true, n, steps[..m - 1]), steps[m - 1], i);
    }
  }

  lemma RunNext(atomic: bool, n: nat, steps: seq<Action>, a: Action)
    requires n >= 1
    ensures Run(atomic, n, steps + [a]) == Step(atomic, Run(atomic, n, steps), a)
  {
    assert (steps + [a])[..|steps + [a]| - 1] == steps;
  }

  /** Tasks 1 and 2 abort; both tests pass before either store. */
  lemma SizeCanGrow(n: nat)
    requires n >= 3
    ensures GrowsSomewhere(false, n)
  {
    var a1, a2, g1, g2 := Action(1, AbortSelf), Action(2, AbortSelf), Action(1, Go), Action(2, Go);
    RunNext(false, n, [], a1);
    RunNext(false, n, [] + [a1], a2);
    RunNext(false, n, [] + [a1] + [a2], g1);
    RunNext(false, n, [] + [a1] + [a2] + [g1], g2);
    RunNext(false, n, [] + [a1] + [a2] + [g1] + [g2], g1);
    RunNext(false, n, [] + [a1] + [a2] + [g1] + [g2] + [g1], g2);
  }

  /** In some run some step makes the group larger. */
  ghost predicate GrowsSomewhere(atomic: bool, n: nat)
    requires n >= 1
  {
    exists steps: seq<Action>, a: Action :: Run(atomic, n, steps).size < Run(atomic, n, steps + [a]).size
  }

  /** Only 1 is ever stored. */
  ghost predicate StoresOne(s: State) {
    forall i :: 0 <= i < |s.pc| && s.pc[i].SetStore? ==> s.pc[i].p == 1
  }

  lemma SmallStep(s: State, a: Action)
    requires Shaped(s) && |s.pc| <= 2 && StoresOne(s)
    ensures StoresOne(Step(false, s, a)) && Step(false, s, a).size <= s.size
  {
    hide CheckStep, CommitStep, GatherStep;
    if a.task < |s.pc| { SizeKept(s, a.task, a.choice); }
  }

  lemma {:induction false} SmallAlways(n: nat, steps: seq<Action>)
    requires 1 <= n <= 2
    ensures StoresOne(Run(false, n, steps))
  {
    if steps != [] {
      SmallAlways(n, steps[..|steps| - 1]);
      SmallStep(Run(false, n, steps[..|steps| - 1]), steps[|steps| - 1]);
    }
  }

  /** The size can grow exactly when it is tested outside the lock and the group has
      three tasks at least. */
  lemma SizeGrowsExactly(atomic: bool, n: nat)
    requires n >= 1
    ensures GrowsSomewhere(atomic, n) <==> !atomic && n >= 3
  {
    if !atomic && n >= 3 {
      SizeCanGrow(n);
    } else {
      forall steps: seq<Action>, a: Action ensures Run(atomic, n, steps + [a]).size <= Run(atomic, n, steps).size {
        RunNext(atomic, n, steps, a);
        if atomic {
          NeverStoring(n, steps);
          StepShrinks(Run(true, n, steps), a);
        } else {
          SmallAlways(n, steps);
          SmallStep(Run(false, n, steps), a);
        }
      }
    }
  }
}
