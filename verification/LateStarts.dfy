/**
 When a job can still start after another has failed: in some run of a pipeline exactly if one of
 its groups holds two jobs.
 */
module LateStarts {
  import opened Options
  import opened Digraph
  import opened Execution

  /** Step i starts a job although an error has been kept. */
  ghost predicate StartsLate(c: Config, states: seq<RunState>, steps: seq<Step>, i: int) {
    Run(c, states, steps) && 0 <= i < |steps| && steps[i].Acquire? && states[i].firstError.Some?
  }

  /** Step i starts a job although another has failed and its failure has been kept. */
  ghost predicate StartsAfterFailure(c: Config, states: seq<RunState>, steps: seq<Step>, i: int) {
    StartsLate(c, states, steps, i) && states[i].firstError.value.JobFailed?
  }

  ghost predicate SharedGroup(c: Config) {
    exists k: nat :: k < |c.groups| && |c.groups[k]| > 1
  }

  // ------------------------------------------------------------ only groups of two or more

  /** Whoever reported the error that was kept has exited. */
  predicate ReporterExited(s: RunState) {
    s.firstError.Some? ==> exists n | n in s.phases :: s.phases[n] == Exited
  }

  lemma StepKeepsReporter(c: Config, s: RunState, step: Step)
    requires Enabled(c, s, step) && ReporterExited(s)
    ensures ReporterExited(Apply(c, s, step))
  {
    var t := Apply(c, s, step);
    if s.firstError.Some? {
      var n :| n in s.phases && s.phases[n] == Exited;
      assert n in t.phases && t.phases[n] == Exited;
    } else if step.Report? {
      assert t.phases[step.job] == Exited;
    }
  }

  lemma {:induction false} RunKeepsReporter(c: Config, states: seq<RunState>, steps: seq<Step>, i: nat)
    requires Run(c, states, steps) && i < |states|
    ensures ReporterExited(states[i])
  {
    if i > 0 {
      RunKeepsReporter(c, states, steps, i - 1);
      assert TakesStep(c, states, steps, i - 1);
      StepKeepsReporter(c, states[i - 1], steps[i - 1]);
    }
  }

  lemma LateStartNeedsTwo(c: Config, states: seq<RunState>, steps: seq<Step>, i: nat)
    requires c.Layered() && StartsLate(c, states, steps, i)
    ensures SharedGroup(c)
  {
    hide Config.Layered, Invariant;
    RunHolds(c, states, steps, i);
    RunKeepsReporter(c, states, steps, i);
    assert TakesStep(c, states, steps, i);
    hide Run;
    var s := states[i];
    StateShape(c, s);
    var n :| n in s.phases && s.phases[n] == Exited;
    TwoMembers(c.groups[s.group], n, steps[i].job);
  }

  lemma TwoMembers(names: seq<string>, a: string, b: string)
    requires a in Elements(names) && b in Elements(names) && a != b
    ensures |names| > 1
  {
  }

  // ------------------------------------------------------------ a run that starts a job late

  lemma StartRun(c: Config)
    ensures Run(c, [Start(c)], [])
  {
  }

  lemma ExtendRun(c: Config, states: seq<RunState>, steps: seq<Step>, step: Step)
    requires Run(c, states, steps) && Enabled(c, states[|steps|], step)
    ensures Run(c, states + [Apply(c, states[|steps|], step)], steps + [step])
  {
    var more, taken := states + [Apply(c, states[|steps|], step)], steps + [step];
    forall i | 0 <= i < |taken| ensures TakesStep(c, more, taken, i) {
      if i < |steps| {
        assert TakesStep(c, states, steps, i);
      }
    }
  }

  /** A run of c that ends in s. */
  ghost predicate Reachable(c: Config, s: RunState) {
    exists states, steps :: EndsIn(c, states, steps, s)
  }

  ghost predicate EndsIn(c: Config, states: seq<RunState>, steps: seq<Step>, s: RunState) {
    Run(c, states, steps) && states[|steps|] == s
  }

  lemma StepReaches(c: Config, s: RunState, step: Step)
    requires Reachable(c, s) && Enabled(c, s, step)
    ensures Reachable(c, Apply(c, s, step))
  {
    var states, steps :| EndsIn(c, states, steps, s);
    ExtendRun(c, states, steps, step);
    assert EndsIn(c, states + [Apply(c, s, step)], steps + [step], Apply(c, s, step));
  }

  /** The state after a waiting job has run, been recorded, and reported. */
  function Worked(s: RunState, job: string, ok: bool): RunState {
    s.(phases := s.phases[job := Exited],
       recorded := s.recorded[job := if ok then Succeeded else Failed],
       firstError := if ok then s.firstError else Keep(s.firstError, JobFailed(job)))
  }

  lemma WorkReaches(c: Config, s: RunState, job: string, ok: bool)
    requires Reachable(c, s) && !s.finished && s.group < |c.groups| && In(s, job, Waiting) && s.slots == 0
    requires c.groups[s.group] != []
    ensures Reachable(c, Worked(s, job, ok))
  {
    hide Reachable;
    var s1 := Apply(c, s, Acquire(job));
    StepReaches(c, s, Acquire(job));
    var s2 := Apply(c, s1, Finish(job, ok));
    StepReaches(c, s1, Finish(job, ok));
    var s3 := Apply(c, s2, ReturnSlot(job));
    StepReaches(c, s2, ReturnSlot(job));
    var s4 := Apply(c, s3, Report(job));
    StepReaches(c, s3, Report(job));
    assert s4.phases == s.phases[job := Exited];
    assert s4 == Worked(s, job, ok);
  }

  /** The first j jobs of the group are done, the others wait. */
  ghost predicate Progressed(c: Config, s: RunState, k: nat, j: nat)
    requires k < |c.groups| && j <= |c.groups[k]|
  {
    && s.group == k && !s.finished && s.slots == 0 && s.firstError.None?
    && s.phases.Keys == Elements(c.groups[k])
    && (forall i | 0 <= i < j :: In(s, c.groups[k][i], Exited))
    && (forall i | j <= i < |c.groups[k]| :: In(s, c.groups[k][i], Waiting))
  }

  lemma {:induction false} GroupProgresses(c: Config, s: RunState, k: nat, j: nat) returns (t: RunState)
    requires k < |c.groups| && j <= |c.groups[k]| && Distinct(c.groups[k])
    requires Reachable(c, s) && Progressed(c, s, k, 0)
    ensures Reachable(c, t) && Progressed(c, t, k, j)
  {
    if j == 0 {
      t := s;
    } else {
      var u := GroupProgresses(c, s, k, j - 1);
      var job := c.groups[k][j - 1];
      WorkReaches(c, u, job, true);
      t := Worked(u, job, true);
      hide Reachable;
      assert t.phases.Keys == u.phases.Keys;
    }
  }

  /** Every group is reached by a run in which all jobs of the earlier ones succeed. */
  lemma {:induction false} GroupReached(c: Config, k: nat) returns (s: RunState)
    requires c.Layered() && k < |c.groups|
    ensures Reachable(c, s) && Progressed(c, s, k, 0)
  {
    if k == 0 {
      s := Start(c);
      StartRun(c);
      assert EndsIn(c, [s], [], s);
    } else {
      var before := GroupReached(c, k - 1);
      GroupIsLayer(c, k - 1);
      var t := GroupProgresses(c, before, k - 1, |c.groups[k - 1]|);
      AllExited(c, t, k - 1);
      StepReaches(c, t, EndGroup);
      s := Apply(c, t, EndGroup);
    }
  }

  lemma AllExited(c: Config, s: RunState, k: nat)
    requires k < |c.groups| && Progressed(c, s, k, |c.groups[k]|)
    ensures Enabled(c, s, EndGroup)
  {
    forall n | n in s.phases ensures s.phases[n] == Exited {
      assert n in Elements(c.groups[k]);
      var i :| 0 <= i < |c.groups[k]| && c.groups[k][i] == n;
      assert In(s, c.groups[k][i], Exited);
    }
  }

  /** In a group of two, let the first job fail and report, then start the second. */
  lemma TwoSuffice(c: Config, k: nat) returns (states: seq<RunState>, steps: seq<Step>, i: nat)
    requires c.Layered() && k < |c.groups| && |c.groups[k]| > 1
    ensures StartsAfterFailure(c, states, steps, i)
  {
    var s := GroupReached(c, k);
    GroupIsLayer(c, k);
    var first, second := c.groups[k][0], c.groups[k][1];
    assert In(s, first, Waiting) && In(s, second, Waiting) && first != second;
    WorkReaches(c, s, first, false);
    var t := Worked(s, first, false);
    states, steps :| EndsIn(c, states, steps, t);
    assert In(t, second, Waiting) && t.firstError == Some(JobFailed(first));
    ExtendRun(c, states, steps, Acquire(second));
    i := |steps|;
    states, steps := states + [Apply(c, t, Acquire(second))], steps + [Acquire(second)];
  }

  /**
   Some run starts a job after an error has been kept if and only if some group holds two jobs, and
   then some run starts one after another's failure.
   */
  lemma LateStartIff(c: Config)
    requires c.Layered()
    ensures (exists states, steps, i :: StartsLate(c, states, steps, i)) <==> SharedGroup(c)
    ensures (exists states, steps, i :: StartsAfterFailure(c, states, steps, i)) <==> SharedGroup(c)
  {
    hide Config.Layered, Run;
    if states, steps, i :| StartsLate(c, states, steps, i) {
      LateStartNeedsTwo(c, states, steps, i);
    }
    if SharedGroup(c) {
      var k: nat :| k < |c.groups| && |c.groups[k]| > 1;
      var states, steps, i := TwoSuffice(c, k);
    }
  }
}
