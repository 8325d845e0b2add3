/**
 The executor: validation, scheduling, the run itself under an arbitrary interleaving, and the
 result it reports.
 */
module RunResults {
  import opened Options
  import opened Digraph
  import opened PipelineIR
  import opened Scheduling
  import opened Validation
  import opened Execution

  datatype JobResult = JobResult(name: string, status: Status)

  /** groups[k] is the number of jobs of recorded group k. */
  datatype Result = Result(groups: seq<nat>, jobs: seq<JobResult>)

  datatype Stats = Stats(groups: nat, jobs: nat, succeeded: nat, failed: nat)

  datatype ExecutionOutcome =
    | InvalidPipeline(verdict: Verdict)
    | Completed(result: Result)
    | Stopped(result: Result, error: RunError)

  // ------------------------------------------------------------ what is run

  function GroupNames(groups: seq<JobGroup>): (r: seq<seq<string>>)
    ensures |r| == |groups| && forall k | 0 <= k < |r| :: r[k] == Names(groups[k].jobs)
  {
    seq(|groups|, k requires 0 <= k < |groups| => Names(groups[k].jobs))
  }

  /** c runs the groups the scheduler makes of the jobs. */
  ghost predicate Runs(c: Config, jobs: seq<Job>) {
    exists groups: seq<JobGroup> ::
      && Outcome(jobs, ScheduleResult.Scheduled(groups))
      && c.graph == JobGraph(jobs) && c.groups == GroupNames(groups)
  }

  lemma RunsLayers(c: Config, jobs: seq<Job>)
    requires Runs(c, jobs)
    ensures UniqueNames(jobs) && c.graph == JobGraph(jobs) && c.Layered()
  {
    var groups: seq<JobGroup> :| Outcome(jobs, ScheduleResult.Scheduled(groups)) && c.graph == JobGraph(jobs)
        && c.groups == GroupNames(groups);
    hide JobGraph, FilterJobs, Acyclic, ClosedJobs, Names;
    forall k: nat | k < |c.groups|
      ensures Distinct(c.groups[k]) && c.groups[k] != [] && Elements(c.groups[k]) == Layer(c.graph, k)
    {
      GroupIsItsLayer(jobs, k);
      assert |c.groups[k]| == |groups[k].jobs|;
    }
  }

  lemma GroupIsItsLayer(jobs: seq<Job>, k: nat)
    requires UniqueNames(jobs)
    ensures var names := Names(FilterJobs(jobs, Layer(JobGraph(jobs), k)));
            Distinct(names) && Elements(names) == Layer(JobGraph(jobs), k)
  {
    var layer := Layer(JobGraph(jobs), k);
    FilterJobsUnique(jobs, layer);
    DoneGrows(JobGraph(jobs), k + 1, k + 1);
    hide Done, FilterJobs;
    assert forall n :: n in layer ==> n in Names(jobs);
  }

  // ------------------------------------------------------------ what a run reports

  /** The names of the jobs of the first k groups, in schedule order. */
  function JobOrder(c: Config, k: nat): seq<string>
    requires k <= |c.groups|
  {
    if k == 0 then [] else JobOrder(c, k - 1) + c.groups[k - 1]
  }

  function GroupSizes(c: Config, k: nat): seq<nat>
    requires k <= |c.groups|
  {
    if k == 0 then [] else GroupSizes(c, k - 1) + [|c.groups[k - 1]|]
  }

  function Total(sizes: seq<nat>): nat {
    if sizes == [] then 0 else Total(sizes[..|sizes| - 1]) + sizes[|sizes| - 1]
  }

  /** The recorded results of the named jobs, in the order of the names. */
  function PickRecorded(order: seq<string>, recorded: map<string, Status>): seq<JobResult> {
    if order == [] then []
    else
      var n := order[|order| - 1];
      PickRecorded(order[..|order| - 1], recorded) + if n in recorded then [JobResult(n, recorded[n])] else []
  }

  function AllSucceeded(order: seq<string>): (r: seq<JobResult>)
    ensures |r| == |order| && forall i | 0 <= i < |r| :: r[i] == JobResult(order[i], Succeeded)
  {
    seq(|order|, i requires 0 <= i < |order| => JobResult(order[i], Succeeded))
  }

  method CurrentResult(c: Config, s: RunState) returns (result: Result)
    requires c.groups == [] || s.group < |c.groups|
    ensures result == ReportOf(c, s)
  {
    var recordedGroups := if c.groups == [] then 0 else s.group + 1;
    var order := JobOrder(c, recordedGroups);
    var jobs: seq<JobResult> := [];
    for i := 0 to |order|
      invariant jobs == PickRecorded(order[..i], s.recorded)
    {
      assert order[..i + 1][..i] == order[..i];
      if order[i] in s.recorded {
        jobs := jobs + [JobResult(order[i], s.recorded[order[i]])];
      }
    }
    assert order[..|order|] == order;
    result := Result(GroupSizes(c, recordedGroups), jobs);
  }

  function ReportOf(c: Config, s: RunState): Result
    requires c.groups == [] || s.group < |c.groups|
  {
    var recordedGroups := if c.groups == [] then 0 else s.group + 1;
    Result(GroupSizes(c, recordedGroups), PickRecorded(JobOrder(c, recordedGroups), s.recorded))
  }

  // ------------------------------------------------------------ accounting

  lemma {:induction false} OrderIsReleased(c: Config, k: nat)
    requires c.Layered() && k <= |c.groups|
    ensures Distinct(JobOrder(c, k)) && Elements(JobOrder(c, k)) == Done(c.graph, k)
  {
    hide Config.Layered;
    if k > 0 {
      OrderIsReleased(c, k - 1);
      GroupIsLayer(c, k - 1);
      DoneGrows(c.graph, k - 1, k);
      hide Done, Distinct;
      DisjointConcat(JobOrder(c, k - 1), c.groups[k - 1]);
    }
  }

  lemma {:induction false} SizesAddUp(c: Config, k: nat)
    requires k <= |c.groups|
    ensures Total(GroupSizes(c, k)) == |JobOrder(c, k)| && |GroupSizes(c, k)| == k
  {
    if k > 0 {
      SizesAddUp(c, k - 1);
      assert GroupSizes(c, k)[..k - 1] == GroupSizes(c, k - 1);
    }
  }

  lemma DisjointConcat(a: seq<string>, b: seq<string>)
    requires Distinct(a) && Distinct(b) && Elements(a) !! Elements(b)
    ensures Distinct(a + b) && Elements(a + b) == Elements(a) + Elements(b)
  {
    assert forall n | n in b :: n in Elements(b) && n !in Elements(a);
    DistinctConcat(a, b);
  }

  lemma {:induction false} PickConcat(a: seq<string>, b: seq<string>, recorded: map<string, Status>)
    ensures PickRecorded(a + b, recorded) == PickRecorded(a, recorded) + PickRecorded(b, recorded)
  {
    if b == [] {
      assert a + b == a;
    } else {
      PickConcat(a, b[..|b| - 1], recorded);
      assert (a + b)[..|a + b| - 1] == a + b[..|b| - 1];
    }
  }

  lemma {:induction false} PickAllSucceeded(order: seq<string>, recorded: map<string, Status>)
    requires forall n | n in order :: n in recorded && recorded[n] == Succeeded
    ensures PickRecorded(order, recorded) == AllSucceeded(order)
  {
    if order != [] {
      assert order == order[..|order| - 1] + [order[|order| - 1]];
      PickAllSucceeded(order[..|order| - 1], recorded);
    }
  }

  lemma {:induction false} PickContains(order: seq<string>, recorded: map<string, Status>, n: string)
    requires n in order && n in recorded
    ensures JobResult(n, recorded[n]) in PickRecorded(order, recorded)
  {
    var init, last := order[..|order| - 1], order[|order| - 1];
    assert order == init + [last];
    if n != last {
      PickContains(init, recorded, n);
    }
  }

  /** Every job exactly once, in schedule order, all succeeded; the group sizes add up to the job count. */
  ghost predicate CompleteReport(c: Config, result: Result) {
    var order := JobOrder(c, |c.groups|);
    && result.jobs == AllSucceeded(order)
    && Distinct(order) && Elements(order) == c.graph.nodes
    && result.groups == GroupSizes(c, |c.groups|) && Total(result.groups) == |result.jobs|
  }

  /**
   The jobs of all groups before k, all succeeded, followed by what was recorded of group k; if the
   error is a job's failure, that job is among the latter, failed.
   */
  ghost predicate PartialReport(c: Config, result: Result, error: RunError, k: nat, recorded: map<string, Status>) {
    && k < |c.groups|
    && result.jobs == AllSucceeded(JobOrder(c, k)) + PickRecorded(c.groups[k], recorded)
    && result.groups == GroupSizes(c, k + 1)
    && (error.JobFailed? ==> JobResult(error.job, Failed) in PickRecorded(c.groups[k], recorded))
  }

  lemma CompletedRun(c: Config, s: RunState)
    requires c.Layered() && Invariant(c, s) && s.finished && s.firstError.None?
    ensures c.groups == [] || s.group < |c.groups|
    ensures CompleteReport(c, ReportOf(c, s))
  {
    hide Config.Layered, Done, Sum, Invariant, CompleteReport, ReportOf;
    FinishedShape(c, s);
    CompleteOrder(c);
    forall n | c.groups != [] && n in JobOrder(c, |c.groups|) ensures n in s.recorded && s.recorded[n] == Succeeded {
      LastGroupDone(c, s, n);
    }
    ReportIsComplete(c, s);
  }

  lemma ReportIsComplete(c: Config, s: RunState)
    requires c.Layered() && if c.groups == [] then s.recorded == map[] else s.group + 1 == |c.groups|
    requires c.groups != [] ==> forall n | n in JobOrder(c, |c.groups|) :: n in s.recorded && s.recorded[n] == Succeeded
    ensures CompleteReport(c, ReportOf(c, s))
  {
    hide Config.Layered, Distinct, Elements, Done;
    CompleteOrder(c);
    var order := JobOrder(c, |c.groups|);
    if c.groups == [] {
      assert order == [] && AllSucceeded([]) == [];
    } else {
      hide JobOrder, GroupSizes, Total;
      PickAllSucceeded(order, s.recorded);
    }
  }

  lemma CompleteOrder(c: Config)
    requires c.Layered()
    ensures var order := JobOrder(c, |c.groups|);
            && Distinct(order) && Elements(order) == c.graph.nodes
            && Total(GroupSizes(c, |c.groups|)) == |order|
            && forall n | n in order :: n in Done(c.graph, |c.groups|)
  {
    OrderIsReleased(c, |c.groups|);
    SizesAddUp(c, |c.groups|);
    assert forall n :: n in JobOrder(c, |c.groups|) <==> n in Elements(JobOrder(c, |c.groups|));
  }

  lemma LastGroupDone(c: Config, s: RunState, n: string)
    requires c.groups != [] && Invariant(c, s) && s.finished && s.firstError.None? && n in Done(c.graph, |c.groups|)
    ensures n in s.recorded && s.recorded[n] == Succeeded
  {
    hide Sum;
    if n !in Done(c.graph, s.group) {
      assert n in Layer(c.graph, s.group);
      assert RecordFits(s, n);
    }
  }

  lemma StoppedRun(c: Config, s: RunState)
    requires c.Layered() && Invariant(c, s) && s.firstError.Some?
    ensures c.groups != [] && s.group < |c.groups|
    ensures PartialReport(c, ReportOf(c, s), s.firstError.value, s.group, s.recorded)
  {
    hide Config.Layered, PickRecorded;
    EarlierSucceeded(c, s);
    hide Invariant, Done;
    PickAllSucceeded(JobOrder(c, s.group), s.recorded);
    PickConcat(JobOrder(c, s.group), c.groups[s.group], s.recorded);
    if s.firstError.value.JobFailed? {
      PickContains(c.groups[s.group], s.recorded, s.firstError.value.job);
    }
  }

  lemma EarlierSucceeded(c: Config, s: RunState)
    requires c.Layered() && Invariant(c, s) && s.firstError.Some?
    ensures c.groups != [] && s.group < |c.groups|
    ensures forall n | n in JobOrder(c, s.group) :: n in s.recorded && s.recorded[n] == Succeeded
    ensures s.firstError.value.JobFailed? ==>
              var job := s.firstError.value.job;
              job in c.groups[s.group] && job in s.recorded && s.recorded[job] == Failed
  {
    hide Config.Layered, Sum, Done, RecordFits;
    var before := JobOrder(c, s.group);
    OrderIsReleased(c, s.group);
    forall n | n in before ensures n in s.recorded && s.recorded[n] == Succeeded {
      assert n in Elements(before);
    }
    if s.firstError.value.JobFailed? {
      assert s.firstError.value.job in Elements(c.groups[s.group]);
    }
  }

  // ------------------------------------------------------------ resources

  /**
   When a job of a valid pipeline starts, every resource it consumes is its own or was written, at
   that path, by a dependency that has succeeded; the job restores that dependency's artifact
   unchanged, and the artifact carries the path.
   */
  lemma StartsWithResources(c: Config, jobs: seq<Job>, states: seq<RunState>, steps: seq<Step>, i: nat, job: Job,
                            res: ResourceSpec)
    requires Runs(c, jobs) && WellFormed(jobs) && Run(c, states, steps) && i < |steps|
    requires steps[i].Acquire? && job in jobs && job.name == steps[i].job && res in job.consumes
    ensures exists p :: p in jobs && res in p.produces && res.path in p.outputArtifact.paths
              && (p.name == job.name
                  || (p.name in job.dependencies && RestoredFrom(job, p)
                      && p.name in states[i].recorded && states[i].recorded[p.name] == Succeeded))
  {
    assert Supplied(jobs, job, res) by {
      assert ResourcesOk(jobs, job);
    }
    RunsLayers(c, jobs);
    var p :| p in jobs && res in p.produces
             && (p.name == job.name || (p.name in job.dependencies && RestoredFrom(job, p)));
    assert res.path in p.outputArtifact.paths by {
      assert ResourcesOk(jobs, p);
    }
    hide Runs, WellFormed, RestoredFrom, Run, Config.Layered;
    if p.name != job.name {
      var a :| 0 <= a < |jobs| && jobs[a] == job;
      JobGraphEdges(jobs, a);
      hide JobGraph;
      EdgeReaches(JobGraph(jobs), job.name, p.name);
      StartsAfterDependencies(c, states, steps, i, p.name);
    }
  }

  // ------------------------------------------------------------ the executor

  /**
   Validate and schedule. A validated pipeline always schedules, so the error branch between the
   two is never taken.
   */
  method Prepare(jobs: seq<Job>, parallelism: int) returns (verdict: Verdict, c: Config)
    ensures verdict.Accepted? <==> WellFormed(jobs)
    ensures verdict.Accepted? ==> Runs(c, jobs) && c.parallelism == parallelism
  {
    verdict := Validate(jobs);
    c := Config(JobGraph(jobs), [], parallelism);
    if !verdict.Accepted? {
      return;
    }
    var scheduled := Schedule(jobs);
    WellFormedIsClosed(jobs);
    OutcomeDecides(jobs, scheduled);
    c := Config(JobGraph(jobs), GroupNames(scheduled.groups), parallelism);
  }

  /** The whole run under an arbitrary interleaving; it always terminates. */
  method Execute(jobs: seq<Job>, parallelism: int) returns (r: ExecutionOutcome, ghost c: Config, ghost last: RunState)
    ensures r.InvalidPipeline? <==> !WellFormed(jobs)
    ensures !r.InvalidPipeline? ==> Runs(c, jobs) && last.finished && Invariant(c, last)
    ensures r.Completed? ==> CompleteReport(c, r.result) && |r.result.jobs| == |jobs|
    ensures r.Stopped? ==>
              && PartialReport(c, r.result, r.error, last.group, last.recorded)
              && (r.error.ContextCancelled? ==> last.parentCancelled)
  {
    hide WellFormed, Runs, Invariant, Enabled, Apply, Config.Layered, CompleteReport, PartialReport, Budget;
    var verdict, config := Prepare(jobs, parallelism);
    c := config;
    last := Start(config);
    if !verdict.Accepted? {
      return InvalidPipeline(verdict), c, last;
    }
    RunsLayers(config, jobs);
    var s := RunAll(config);
    last := s;
    FinishedShape(config, s);
    StateShape(config, s);
    var result := CurrentResult(config, s);
    if s.firstError.Some? {
      StoppedRun(config, s);
      return Stopped(result, s.firstError.value), c, last;
    }
    CompletedRun(config, s);
    AllReported(config, jobs, result);
    r := Completed(result);
  }

  /** Take enabled steps, any of them, until the run is finished. */
  method RunAll(c: Config) returns (s: RunState)
    requires c.Layered()
    ensures Invariant(c, s) && s.finished
  {
    hide Invariant, Enabled, Apply, Config.Layered, Budget;
    s := Start(c);
    StartHolds(c);
    StateShape(c, s);
    while !s.finished
      invariant Invariant(c, s) && (c.groups != [] ==> InGroup(c, s))
      decreases if c.groups == [] then 0 else Budget(c, s)
    {
      Progress(c, s);
      var step :| Enabled(c, s, step);
      StepSpends(c, s, step);
      StateShape(c, Apply(c, s, step));
      s := Apply(c, s, step);
    }
  }

  lemma AllReported(c: Config, jobs: seq<Job>, result: Result)
    requires Runs(c, jobs) && CompleteReport(c, result)
    ensures |result.jobs| == |jobs|
  {
    RunsLayers(c, jobs);
    hide Runs, Config.Layered, JobOrder;
    DistinctCount(Names(jobs));
    DistinctCount(JobOrder(c, |c.groups|));
  }

  lemma FinishedShape(c: Config, s: RunState)
    requires Invariant(c, s)
    ensures c.groups == [] || s.group < |c.groups|
    ensures c.groups == [] ==> s.recorded == map[]
    ensures c.groups != [] && s.finished && s.firstError.None? ==> s.group + 1 == |c.groups|
  {
  }

  lemma Progress(c: Config, s: RunState)
    requires c.Layered() && Invariant(c, s) && !s.finished
    ensures exists step :: Enabled(c, s, step)
  {
    var step := NextStep(c, s);
  }

  // ------------------------------------------------------------ statistics

  /** Succeeded and failed jobs add up to the jobs reported. */
  method CollectStats(result: Result) returns (stats: Stats)
    ensures stats.groups == |result.groups| && stats.jobs == |result.jobs|
    ensures stats.succeeded == |set i | 0 <= i < |result.jobs| && result.jobs[i].status == Succeeded|
    ensures stats.succeeded + stats.failed == stats.jobs
  {
    var succeeded, failed := 0, 0;
    for k := 0 to |result.jobs|
      invariant succeeded == |set i | 0 <= i < k && result.jobs[i].status == Succeeded|
      invariant succeeded + failed == k
    {
      ghost var before := set i | 0 <= i < k && result.jobs[i].status == Succeeded;
      ghost var after := set i | 0 <= i < k + 1 && result.jobs[i].status == Succeeded;
      match result.jobs[k].status
      case Succeeded =>
        succeeded := succeeded + 1;
        assert after == before + {k};
      case Failed =>
        failed := failed + 1;
        assert after == before;
    }
    stats := Stats(|result.groups|, |result.jobs|, succeeded, failed);
  }

  /** The first failed job in report order, if any. */
  method FirstFailed(result: Result) returns (r: Option<JobResult>)
    ensures r.None? <==> forall j | j in result.jobs :: j.status == Succeeded
    ensures r.Some? ==> exists k :: 0 <= k < |result.jobs| && result.jobs[k] == r.value && r.value.status == Failed
                                    && forall i | 0 <= i < k :: result.jobs[i].status == Succeeded
  {
    for k := 0 to |result.jobs|
      invariant forall i | 0 <= i < k :: result.jobs[i].status == Succeeded
    {
      if result.jobs[k].status == Failed {
        return Some(result.jobs[k]);
      }
    }
    return None;
  }
}
