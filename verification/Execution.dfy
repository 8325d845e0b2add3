/**
 Parallel execution as a transition system. Groups run one after another; within a group every job
 has a worker that waits for a semaphore slot or for cancellation, runs its job, records the
 result, gives the slot back and reports to the error group, which keeps the first error and then
 cancels the others. Any enabled worker may take the next step, a waiting worker may take a slot
 even when cancellation has been signalled, and the parent context may be cancelled at any time.
 */
module Execution {
  import opened Options
  import opened Digraph

  /** Where a worker stands; `ok` is whether its job succeeded. */
  datatype Phase =
    | Waiting
    | Running
    | Recorded(ok: bool)
    | SlotReturned(ok: bool)
    | Aborting
    | Exited

  datatype Status = Succeeded | Failed

  datatype RunError = JobFailed(job: string) | ContextCancelled

  datatype RunState = RunState(
    group: nat,
    phases: map<string, Phase>,
    slots: nat,
    firstError: Option<RunError>,
    parentCancelled: bool,
    recorded: map<string, Status>,
    finished: bool)

  datatype Step =
    | CancelParent
    | Acquire(job: string)
    | Abort(job: string)
    | Finish(job: string, ok: bool)
    | ReturnSlot(job: string)
    | Report(job: string)
    | EndGroup

  /** The names of the jobs of each group, the dependencies between them, and the parallelism. */
  datatype Config = Config(graph: Graph, groups: seq<seq<string>>, parallelism: int) {
    /** The semaphore's capacity for group k. */
    function Limit(k: nat): int
      requires k < |groups|
    {
      if parallelism <= 0 || parallelism > |groups[k]| then |groups[k]| else parallelism
    }

    /** Group k lists the jobs whose longest dependency chain has k edges, and every job is in a group. */
    ghost predicate Layered() {
      && (forall k: nat | k < |groups| ::
            Distinct(groups[k]) && groups[k] != [] && Elements(groups[k]) == Layer(graph, k))
      && Done(graph, |groups|) == graph.nodes
    }
  }

  function AllWaiting(names: seq<string>): map<string, Phase> {
    map n | n in names :: Waiting
  }

  function Start(c: Config): RunState {
    if c.groups == [] then RunState(0, map[], 0, None, false, map[], true)
    else RunState(0, AllWaiting(c.groups[0]), 0, None, false, map[], false)
  }

  predicate Cancelled(s: RunState) {
    s.parentCancelled || s.firstError.Some?
  }

  predicate In(s: RunState, job: string, p: Phase) {
    job in s.phases && s.phases[job] == p
  }

  predicate Enabled(c: Config, s: RunState, step: Step) {
    && !s.finished && s.group < |c.groups|
    && match step
       case CancelParent => !s.parentCancelled
       case Acquire(job) => In(s, job, Waiting) && s.slots < c.Limit(s.group)
       case Abort(job) => In(s, job, Waiting) && Cancelled(s)
       case Finish(job, ok) => In(s, job, Running)
       case ReturnSlot(job) => (In(s, job, Recorded(true)) || In(s, job, Recorded(false))) && s.slots > 0
       case Report(job) => In(s, job, SlotReturned(true)) || In(s, job, SlotReturned(false)) || In(s, job, Aborting)
       case EndGroup => forall n | n in s.phases :: s.phases[n] == Exited
  }

  function Move(s: RunState, job: string, p: Phase): RunState {
    s.(phases := s.phases[job := p])
  }

  /** The error group keeps the first error it is given. */
  function Keep(first: Option<RunError>, error: RunError): Option<RunError> {
    if first.None? then Some(error) else first
  }

  function Apply(c: Config, s: RunState, step: Step): RunState
    requires Enabled(c, s, step)
  {
    match step
    case CancelParent => s.(parentCancelled := true)
    case Acquire(job) => Move(s, job, Running).(slots := s.slots + 1)
    case Abort(job) => Move(s, job, Aborting)
    case Finish(job, ok) =>
      Move(s, job, Recorded(ok)).(recorded := s.recorded[job := if ok then Succeeded else Failed])
    case ReturnSlot(job) => Move(s, job, SlotReturned(s.phases[job].ok)).(slots := s.slots - 1)
    case Report(job) =>
      var failed := s.phases[job] != SlotReturned(true);
      var error := if s.phases[job] == Aborting then ContextCancelled else JobFailed(job);
      Move(s, job, Exited).(firstError := if failed then Keep(s.firstError, error) else s.firstError)
    case EndGroup =>
      if s.firstError.Some? || s.group + 1 == |c.groups| then s.(finished := true)
      else s.(group := s.group + 1, phases := AllWaiting(c.groups[s.group + 1]), slots := 0)
  }

  /** A run: states from the start, each step enabled and leading to the next state. */
  ghost predicate Run(c: Config, states: seq<RunState>, steps: seq<Step>) {
    && |states| == |steps| + 1 && states[0] == Start(c)
    && forall i | 0 <= i < |steps| :: TakesStep(c, states, steps, i)
  }

  ghost predicate TakesStep(c: Config, states: seq<RunState>, steps: seq<Step>, i: int)
    requires |states| == |steps| + 1 && 0 <= i < |steps|
  {
    Enabled(c, states[i], steps[i]) && states[i + 1] == Apply(c, states[i], steps[i])
  }

  // ------------------------------------------------------------ counting workers

  function Sum(names: seq<string>, phases: map<string, Phase>, weight: Phase -> nat): nat
    requires forall n | n in names :: n in phases
  {
    if names == [] then 0
    else
      var last := |names| - 1;
      assert names == names[..last] + [names[last]];
      Sum(names[..last], phases, weight) + weight(phases[names[last]])
  }

  lemma {:induction false} SumUpdate(names: seq<string>, phases: map<string, Phase>, weight: Phase -> nat, job: string,
                                     p: Phase)
    requires Distinct(names) && (forall n | n in names :: n in phases) && job in phases
    ensures Sum(names, phases[job := p], weight) + (if job in names then weight(phases[job]) else 0) ==
            Sum(names, phases, weight) + (if job in names then weight(p) else 0)
  {
    if names != [] {
      var init, last := names[..|names| - 1], names[|names| - 1];
      assert names == init + [last];
      assert last !in init;
      SumUpdate(init, phases, weight, job, p);
    }
  }

  lemma {:induction false} SumSame(names: seq<string>, phases: map<string, Phase>, weight: Phase -> nat, p: Phase)
    requires forall n | n in names :: n in phases && phases[n] == p
    ensures Sum(names, phases, weight) == |names| * weight(p)
  {
    if names != [] {
      var init, last := names[..|names| - 1], names[|names| - 1];
      assert names == init + [last];
      SumSame(init, phases, weight, p);
    }
  }

  lemma {:induction false} SumPositive(names: seq<string>, phases: map<string, Phase>, weight: Phase -> nat)
    returns (n: string)
    requires (forall n | n in names :: n in phases) && Sum(names, phases, weight) > 0
    ensures n in names && weight(phases[n]) > 0
  {
    var init, last := names[..|names| - 1], names[|names| - 1];
    assert names == init + [last];
    if weight(phases[last]) > 0 {
      n := last;
    } else {
      n := SumPositive(init, phases, weight);
    }
  }

  /** Every set of workers that each weigh at least one is no larger than the sum. */
  lemma {:induction false} SumCovers(names: seq<string>, phases: map<string, Phase>, weight: Phase -> nat,
                                     some: set<string>)
    requires (forall n | n in names :: n in phases) && some <= Elements(names)
    requires forall n | n in some :: weight(phases[n]) >= 1
    ensures |some| <= Sum(names, phases, weight)
  {
    if names != [] {
      var init, last := names[..|names| - 1], names[|names| - 1];
      assert names == init + [last];
      ElementsSnoc(init, last);
      SumCovers(init, phases, weight, some - {last});
      if last in some {
        assert |some - {last}| == |some| - 1;
      } else {
        assert some - {last} == some;
      }
    } else {
      assert some == {};
    }
  }

  /** One for every worker that holds a semaphore slot. */
  function Holds(p: Phase): nat {
    if p.Running? || p.Recorded? then 1 else 0
  }

  /** How many steps a worker still has to take at most. */
  function StepsLeft(p: Phase): nat {
    match p
    case Waiting => 4
    case Running => 3
    case Recorded(_) => 2
    case SlotReturned(_) => 1
    case Aborting => 1
    case Exited => 0
  }

  // ------------------------------------------------------------ the invariant

  /** What a worker's phase says about its job's record. */
  predicate RecordFits(s: RunState, job: string)
    requires job in s.phases
  {
    match s.phases[job]
    case Waiting => job !in s.recorded
    case Running => job !in s.recorded
    case Aborting => job !in s.recorded && Cancelled(s)
    case Recorded(ok) => job in s.recorded && s.recorded[job] == if ok then Succeeded else Failed
    case SlotReturned(ok) => job in s.recorded && s.recorded[job] == if ok then Succeeded else Failed
    case Exited => s.firstError.Some? || (job in s.recorded && s.recorded[job] == Succeeded)
  }

  /** The error kept is a recorded failure of this group, or the parent was cancelled. */
  predicate ErrorFits(s: RunState) {
    match s.firstError
    case None => true
    case Some(JobFailed(job)) => job in s.phases && job in s.recorded && s.recorded[job] == Failed
    case Some(ContextCancelled) => s.parentCancelled
  }

  predicate AllFit(s: RunState) {
    (forall n | n in s.phases :: RecordFits(s, n)) && ErrorFits(s)
  }

  ghost predicate Invariant(c: Config, s: RunState) {
    var g := c.graph;
    if c.groups == [] then s.finished && s.firstError.None? && s.recorded == map[] && s.phases == map[] && s.group == 0
    else
      && s.group < |c.groups| && s.phases.Keys == Layer(g, s.group)
      && s.phases.Keys == Elements(c.groups[s.group])
      && s.slots == Sum(c.groups[s.group], s.phases, Holds) && s.slots <= c.Limit(s.group)
      && (forall n | n in Done(g, s.group) :: n in s.recorded && s.recorded[n] == Succeeded)
      && s.recorded.Keys <= Done(g, s.group + 1)
      && AllFit(s)
      && (s.finished ==> (forall n | n in s.phases :: s.phases[n] == Exited)
                         && (s.firstError.None? ==> s.group + 1 == |c.groups|))
  }

  lemma GroupIsLayer(c: Config, k: nat)
    requires c.Layered() && k < |c.groups|
    ensures Distinct(c.groups[k]) && Elements(c.groups[k]) == Layer(c.graph, k) && c.groups[k] != []
  {
  }

  lemma FreshGroup(c: Config, s: RunState)
    requires c.Layered() && s.group < |c.groups| && !s.finished && s.firstError.None? && s.slots == 0
    requires s.phases == AllWaiting(c.groups[s.group])
    requires forall n | n in Done(c.graph, s.group) :: n in s.recorded && s.recorded[n] == Succeeded
    requires s.recorded.Keys <= Done(c.graph, s.group)
    ensures Invariant(c, s)
  {
    hide Config.Layered, Done;
    var g := c.graph;
    GroupIsLayer(c, s.group);
    SumSame(c.groups[s.group], s.phases, Holds, Waiting);
    DoneGrows(g, s.group, s.group + 1);
    assert s.phases.Keys == Elements(c.groups[s.group]);
  }

  lemma StartHolds(c: Config)
    requires c.Layered()
    ensures Invariant(c, Start(c))
  {
    if c.groups != [] {
      FreshGroup(c, Start(c));
    }
  }

  /** A worker's own step, other than finishing its job, changes only its phase, the slots and the first error. */
  lemma WorkerStepHolds(c: Config, s: RunState, step: Step)
    requires c.Layered() && Invariant(c, s) && Enabled(c, s, step)
    requires step.Acquire? || step.Abort? || step.ReturnSlot? || step.Report? || step.Finish?
    ensures Invariant(c, Apply(c, s, step))
  {
    hide Config.Layered, Done, Sum, AllFit;
    var t := Apply(c, s, step);
    GroupIsLayer(c, s.group);
    assert step.job in Elements(c.groups[s.group]);
    SumUpdate(c.groups[s.group], s.phases, Holds, step.job, t.phases[step.job]);
    assert t.phases.Keys == s.phases.Keys;
    var g := c.graph;
    assert step.job in Layer(g, s.group);
    WorkerRecordsFit(c, s, step);
  }

  lemma WorkerRecordsFit(c: Config, s: RunState, step: Step)
    requires Enabled(c, s, step) && AllFit(s)
    requires step.Acquire? || step.Abort? || step.ReturnSlot? || step.Report? || step.Finish?
    ensures AllFit(Apply(c, s, step))
  {
    var t := Apply(c, s, step);
    assert RecordFits(s, step.job);
    forall n | n in t.phases ensures RecordFits(t, n) {
      assert RecordFits(s, n);
    }
  }

  lemma EndGroupHolds(c: Config, s: RunState)
    requires c.Layered() && Invariant(c, s) && Enabled(c, s, EndGroup)
    ensures Invariant(c, Apply(c, s, EndGroup))
  {
    hide Config.Layered, Done, Sum;
    if !(s.firstError.Some? || s.group + 1 == |c.groups|) {
      var g := c.graph;
      forall n | n in Done(g, s.group + 1) ensures n in s.recorded && s.recorded[n] == Succeeded {
        if n !in Done(g, s.group) {
          assert n in Layer(g, s.group);
          assert RecordFits(s, n);
        }
      }
      FreshGroup(c, Apply(c, s, EndGroup));
    }
  }

  lemma StepHolds(c: Config, s: RunState, step: Step)
    requires c.Layered() && Invariant(c, s) && Enabled(c, s, step)
    ensures Invariant(c, Apply(c, s, step))
  {
    hide Config.Layered, Done, Sum, GroupBudget;
    match step
    case CancelParent =>
      var t := Apply(c, s, step);
      forall n | n in t.phases ensures RecordFits(t, n) {
        assert RecordFits(s, n);
      }
    case EndGroup => EndGroupHolds(c, s);
    case _ => WorkerStepHolds(c, s, step);
  }

  /** The invariant holds in every state of every run. */
  lemma {:induction false} RunHolds(c: Config, states: seq<RunState>, steps: seq<Step>, i: nat)
    requires c.Layered() && Run(c, states, steps) && i < |states|
    ensures Invariant(c, states[i])
    decreases i
  {
    hide Config.Layered, Invariant, Apply, Enabled, Start;
    if i == 0 {
      StartHolds(c);
    } else {
      RunHolds(c, states, steps, i - 1);
      assert TakesStep(c, states, steps, i - 1);
      StepHolds(c, states[i - 1], steps[i - 1]);
    }
  }

  // ------------------------------------------------------------ safety

  lemma {:induction false} ReachedEarlier(g: Graph, k: nat, u: string, v: string)
    requires u in Done(g, k + 1) && Reaches(g, u, v)
    ensures v in Done(g, k)
    decreases k
  {
    var w := FirstStep(g, u, v);
    assert w in Done(g, k);
    if w != v {
      if k > 0 {
        ReachedEarlier(g, k - 1, w, v);
        DoneGrows(g, k - 1, k);
      }
    }
  }

  /**
   Safety over all interleavings: for every parallelism, every choice of runner outcomes and every
   moment of cancellation, when a job starts, everything it transitively depends on has succeeded.
   */
  lemma StartsAfterDependencies(c: Config, states: seq<RunState>, steps: seq<Step>, i: nat, dep: string)
    requires c.Layered() && Run(c, states, steps) && i < |steps| && steps[i].Acquire?
    requires Reaches(c.graph, steps[i].job, dep)
    ensures dep in states[i].recorded && states[i].recorded[dep] == Succeeded
  {
    hide Config.Layered, Done, Sum, Apply;
    RunHolds(c, states, steps, i);
    assert TakesStep(c, states, steps, i);
    assert steps[i].job in Layer(c.graph, states[i].group);
    ReachedEarlier(c.graph, states[i].group, steps[i].job, dep);
  }

  /** At most Limit jobs run at once. */
  lemma BoundedParallelism(c: Config, states: seq<RunState>, steps: seq<Step>, i: nat)
    requires c.Layered() && Run(c, states, steps) && i < |states| && c.groups != []
    ensures states[i].group < |c.groups|
    ensures |set n | n in states[i].phases && states[i].phases[n] == Running| <= c.Limit(states[i].group)
  {
    RunHolds(c, states, steps, i);
    var s := states[i];
    SumCovers(c.groups[s.group], s.phases, Holds, set n | n in s.phases && s.phases[n] == Running);
  }

  // ------------------------------------------------------------ progress and termination

  /** No unfinished state of a run is stuck, even without cancelling the parent. */
  lemma NeverStuck(c: Config, states: seq<RunState>, steps: seq<Step>, i: nat)
    requires c.Layered() && Run(c, states, steps) && i < |states| && !states[i].finished
    ensures exists step :: Enabled(c, states[i], step) && step != CancelParent
  {
    hide Config.Layered, Enabled, Invariant;
    RunHolds(c, states, steps, i);
    var step := NextStep(c, states[i]);
  }

  lemma NextStep(c: Config, s: RunState) returns (step: Step)
    requires c.Layered() && Invariant(c, s) && !s.finished
    ensures Enabled(c, s, step) && step != CancelParent
  {
    hide Config.Layered, Done, Sum;
    var k := s.group;
    GroupIsLayer(c, k);
    if forall n | n in s.phases :: s.phases[n] == Exited {
      step := EndGroup;
    } else {
      var n :| n in s.phases && s.phases[n] != Exited;
      match s.phases[n]
      case Waiting =>
        if s.slots < c.Limit(k) {
          step := Acquire(n);
        } else {
          var h := SumPositive(c.groups[k], s.phases, Holds);
          step := HolderStep(c, s, h);
        }
      case Running => step := HolderStep(c, s, n);
      case Recorded(ok) => step := HolderStep(c, s, n);
      case SlotReturned(ok) => step := Report(n);
      case Aborting => step := Report(n);
    }
  }

  lemma HolderStep(c: Config, s: RunState, n: string) returns (step: Step)
    requires c.Layered() && Invariant(c, s) && !s.finished && n in s.phases && Holds(s.phases[n]) > 0
    ensures Enabled(c, s, step) && step != CancelParent
  {
    hide Config.Layered, Done;
    GroupIsLayer(c, s.group);
    if s.phases[n] == Running {
      step := Finish(n, true);
    } else {
      SumCovers(c.groups[s.group], s.phases, Holds, {n});
      assert s.slots >= |{n}|;
      step := ReturnSlot(n);
    }
  }

  /** Steps the groups from k on can take at most. */
  function GroupBudget(c: Config, k: nat): nat
    requires k <= |c.groups|
    decreases |c.groups| - k
  {
    if k == |c.groups| then 0 else 4 * |c.groups[k]| + 1 + GroupBudget(c, k + 1)
  }

  /** Steps left in a run at most. */
  function Budget(c: Config, s: RunState): nat
    requires InGroup(c, s)
  {
    if s.finished then 0
    else (if s.parentCancelled then 0 else 1)
         + Sum(c.groups[s.group], s.phases, StepsLeft) + 1 + GroupBudget(c, s.group + 1)
  }

  /** The state belongs to a group and has a worker for each of its jobs. */
  predicate InGroup(c: Config, s: RunState) {
    s.group < |c.groups| && forall n | n in c.groups[s.group] :: n in s.phases
  }

  lemma StateShape(c: Config, s: RunState)
    requires Invariant(c, s)
    ensures c.groups != [] ==> InGroup(c, s) && s.phases.Keys == Elements(c.groups[s.group])
    ensures c.groups == [] ==> s.finished && s.firstError.None?
    ensures s.firstError == Some(ContextCancelled) ==> s.parentCancelled
  {
  }

  lemma WorkerStepSpends(c: Config, s: RunState, step: Step)
    requires c.Layered() && Invariant(c, s) && Enabled(c, s, step) && !step.CancelParent? && !step.EndGroup?
    ensures c.groups != [] && Invariant(c, Apply(c, s, step))
    ensures Budget(c, Apply(c, s, step)) < Budget(c, s)
  {
    hide Config.Layered, Done, GroupBudget, Invariant, Sum;
    StepHolds(c, s, step);
    StateShape(c, s);
    GroupIsLayer(c, s.group);
    assert step.job in Elements(c.groups[s.group]);
    SumUpdate(c.groups[s.group], s.phases, StepsLeft, step.job, Apply(c, s, step).phases[step.job]);
  }

  lemma EndGroupSpends(c: Config, s: RunState)
    requires c.Layered() && Invariant(c, s) && Enabled(c, s, EndGroup)
    ensures c.groups != [] && Invariant(c, Apply(c, s, EndGroup))
    ensures Budget(c, Apply(c, s, EndGroup)) < Budget(c, s)
  {
    hide Config.Layered, Done, Sum, RecordFits, ErrorFits;
    StepHolds(c, s, EndGroup);
    var t := Apply(c, s, EndGroup);
    if !t.finished {
      WaitingBudget(c, t.group);
    }
  }

  lemma WaitingBudget(c: Config, k: nat)
    requires c.Layered() && k < |c.groups|
    ensures Sum(c.groups[k], AllWaiting(c.groups[k]), StepsLeft) + 1 + GroupBudget(c, k + 1) == GroupBudget(c, k)
  {
    hide Config.Layered, Sum;
    GroupIsLayer(c, k);
    SumSame(c.groups[k], AllWaiting(c.groups[k]), StepsLeft, Waiting);
  }

  /** Every step uses up part of the budget. */
  lemma StepSpends(c: Config, s: RunState, step: Step)
    requires c.Layered() && Invariant(c, s) && Enabled(c, s, step)
    ensures c.groups != [] && Invariant(c, Apply(c, s, step))
    ensures Budget(c, Apply(c, s, step)) < Budget(c, s)
  {
    hide Config.Layered, Done, Sum, GroupBudget;
    match step
    case CancelParent => StepHolds(c, s, step);
    case EndGroup => EndGroupSpends(c, s);
    case _ => WorkerStepSpends(c, s, step);
  }

  lemma {:induction false} RunSpends(c: Config, states: seq<RunState>, steps: seq<Step>, i: nat)
    requires c.Layered() && c.groups != [] && Run(c, states, steps) && i < |states|
    ensures Invariant(c, states[i]) && Invariant(c, states[0])
    ensures Budget(c, states[i]) + i <= Budget(c, states[0])
    decreases i
  {
    hide Config.Layered, Invariant, Apply, Enabled, Start, Budget;
    RunHolds(c, states, steps, i);
    RunHolds(c, states, steps, 0);
    if i > 0 {
      RunSpends(c, states, steps, i - 1);
      assert TakesStep(c, states, steps, i - 1);
      StepSpends(c, states[i - 1], steps[i - 1]);
    }
  }

  lemma EmptyRun(c: Config, states: seq<RunState>, steps: seq<Step>)
    requires Run(c, states, steps) && c.groups == []
    ensures steps == []
  {
    assert |steps| > 0 ==> TakesStep(c, states, steps, 0);
  }

  lemma StartBudget(c: Config)
    requires c.Layered() && c.groups != []
    ensures InGroup(c, Start(c)) && Budget(c, Start(c)) == GroupBudget(c, 0) + 1
  {
    hide Config.Layered, Sum;
    WaitingBudget(c, 0);
  }

  /** Every run ends: jobs ending, no run is longer than this. */
  lemma RunsAreBounded(c: Config, states: seq<RunState>, steps: seq<Step>)
    requires c.Layered() && Run(c, states, steps)
    ensures |steps| <= GroupBudget(c, 0) + 1
  {
    hide Config.Layered, Invariant, Apply, Enabled, TakesStep;
    if c.groups == [] {
      EmptyRun(c, states, steps);
    } else {
      RunSpends(c, states, steps, |steps|);
      StartBudget(c);
    }
  }

  // ------------------------------------------------------------ errors

  /** Unless the parent was cancelled, the error of a run is the recorded failure of one of its jobs. */
  lemma ErrorsComeFromJobs(c: Config, states: seq<RunState>, steps: seq<Step>, i: nat)
    requires c.Layered() && Run(c, states, steps) && i < |states|
    requires states[i].firstError.Some? && !states[i].parentCancelled
    ensures var error := states[i].firstError.value;
            error.JobFailed? && error.job in states[i].recorded && states[i].recorded[error.job] == Failed
  {
    RunHolds(c, states, steps, i);
  }

  /** A failure is never lost: once a failed job's worker has exited, the run carries an error. */
  lemma FailuresSurface(c: Config, states: seq<RunState>, steps: seq<Step>, i: nat, job: string)
    requires c.Layered() && Run(c, states, steps) && i < |states| && states[i].finished
    requires job in states[i].recorded && states[i].recorded[job] == Failed
    ensures states[i].firstError.Some?
  {
    hide Config.Layered, Invariant, Run;
    RunHolds(c, states, steps, i);
    FailureKept(c, states[i], job);
  }

  lemma FailureKept(c: Config, s: RunState, job: string)
    requires Invariant(c, s) && s.finished && job in s.recorded && s.recorded[job] == Failed
    ensures s.firstError.Some?
  {
    hide Sum, Done;
    if c.groups != [] {
      assert job in Layer(c.graph, s.group);
      assert RecordFits(s, job);
    }
  }

  // ------------------------------------------------------------ giving up

  /** The parent was cancelled in one of the first i steps. */
  ghost predicate ParentGaveUp(steps: seq<Step>, i: nat)
    requires i <= |steps|
  {
    exists j :: 0 <= j < i && steps[j] == CancelParent
  }

  /** In one of the first i steps a worker reported whose job had not succeeded. */
  ghost predicate FailureReported(states: seq<RunState>, steps: seq<Step>, i: nat)
    requires i <= |steps| && |states| == |steps| + 1
  {
    exists j :: 0 <= j < i && steps[j].Report? && !In(states[j], steps[j].job, SlotReturned(true))
  }

  lemma {:induction false} SignalsAre(c: Config, states: seq<RunState>, steps: seq<Step>, i: nat)
    requires Run(c, states, steps) && i <= |steps|
    ensures states[i].parentCancelled <==> ParentGaveUp(steps, i)
    ensures states[i].firstError.Some? <==> FailureReported(states, steps, i)
  {
    if i > 0 {
      SignalsAre(c, states, steps, i - 1);
      assert TakesStep(c, states, steps, i - 1);
    }
  }

  /** A waiting worker may give up exactly after the parent was cancelled or a worker reported a failure. */
  lemma GivesUpIff(c: Config, states: seq<RunState>, steps: seq<Step>, i: nat, job: string)
    requires Run(c, states, steps) && i <= |steps| && !states[i].finished && states[i].group < |c.groups|
    requires In(states[i], job, Waiting)
    ensures Enabled(c, states[i], Abort(job)) <==> ParentGaveUp(steps, i) || FailureReported(states, steps, i)
  {
    SignalsAre(c, states, steps, i);
    hide Run;
  }
}
