/**
 How many jobs run at once: never more than the group holds or the setting allows, and in some run
 of every group exactly as many as these two permit.
 */
module Parallelism {
  import opened Digraph
  import opened Execution
  import opened LateStarts

  ghost function RunningJobs(s: RunState): set<string> {
    set n | n in s.phases && s.phases[n] == Running
  }

  /** In every state of every run at most the group's jobs run, and at most as many as a positive setting. */
  lemma NeverMoreThanAllowed(c: Config, states: seq<RunState>, steps: seq<Step>, i: nat)
    requires c.Layered() && Run(c, states, steps) && i < |states| && c.groups != []
    ensures states[i].group < |c.groups|
    ensures |RunningJobs(states[i])| <= |c.groups[states[i].group]|
    ensures c.parallelism > 0 ==> |RunningJobs(states[i])| <= c.parallelism
  {
    hide Config.Layered, Run;
    BoundedParallelism(c, states, steps, i);
    assert RunningJobs(states[i]) == set n | n in states[i].phases && states[i].phases[n] == Running;
  }

  /** The first j jobs of the group run, the others wait. */
  ghost predicate Started(c: Config, s: RunState, k: nat, j: nat)
    requires k < |c.groups| && j <= |c.groups[k]|
  {
    && s.group == k && !s.finished && s.slots == j
    && s.phases.Keys == Elements(c.groups[k])
    && (forall i | 0 <= i < j :: In(s, c.groups[k][i], Running))
    && (forall i | j <= i < |c.groups[k]| :: In(s, c.groups[k][i], Waiting))
  }

  lemma {:induction false} JobsStart(c: Config, s: RunState, k: nat, j: nat) returns (t: RunState)
    requires k < |c.groups| && j <= |c.groups[k]| && Distinct(c.groups[k])
    requires c.parallelism > 0 ==> j <= c.parallelism
    requires Reachable(c, s) && Started(c, s, k, 0)
    ensures Reachable(c, t) && Started(c, t, k, j)
  {
    if j == 0 {
      t := s;
    } else {
      var u := JobsStart(c, s, k, j - 1);
      var job := c.groups[k][j - 1];
      assert In(u, job, Waiting);
      StepReaches(c, u, Acquire(job));
      t := Apply(c, u, Acquire(job));
      hide Reachable;
      assert t.phases.Keys == u.phases.Keys;
    }
  }

  lemma StartedCount(c: Config, s: RunState, k: nat, j: nat)
    requires k < |c.groups| && j <= |c.groups[k]| && Distinct(c.groups[k]) && Started(c, s, k, j)
    ensures |RunningJobs(s)| == j
  {
    var first := c.groups[k][..j];
    DistinctCount(first);
    forall n ensures n in RunningJobs(s) <==> n in Elements(first) {
      if n in RunningJobs(s) {
        assert n in Elements(c.groups[k]);
        var i :| 0 <= i < |c.groups[k]| && c.groups[k][i] == n;
        assert i >= j ==> In(s, c.groups[k][i], Waiting);
        assert first[i] == n;
      }
      if n in Elements(first) {
        var i :| 0 <= i < j && first[i] == n;
        assert In(s, c.groups[k][i], Running);
      }
    }
    assert RunningJobs(s) == Elements(first);
  }

  /** What the setting allows to run at once in a group of the given size. */
  function Allowed(parallelism: int, size: nat): nat {
    if 0 < parallelism <= size then parallelism else size
  }

  /** In every group some run has all the allowed jobs running at once. */
  lemma AllowanceIsUsed(c: Config, k: nat) returns (states: seq<RunState>, steps: seq<Step>)
    requires c.Layered() && k < |c.groups|
    ensures Run(c, states, steps) && states[|steps|].group == k
    ensures |RunningJobs(states[|steps|])| ==
            if 0 < c.parallelism <= |c.groups[k]| then c.parallelism else |c.groups[k]|
  {
    var s := GroupReached(c, k);
    GroupIsLayer(c, k);
    var t := JobsStart(c, s, k, Allowed(c.parallelism, |c.groups[k]|));
    StartedCount(c, t, k, Allowed(c.parallelism, |c.groups[k]|));
    states, steps :| EndsIn(c, states, steps, t);
  }
}
