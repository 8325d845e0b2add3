/**
 How the schedule of a compiled pipeline follows the execution levels of the module graph:
 applying, level L becomes the groups 2L (plan) and 2L + 1 (apply); planning only, level L becomes
 group L. Contributed jobs never shift a module job.
 */
module LevelLaw {
  import opened Digraph
  import opened GraphLevels
  import opened PipelineIR
  import opened Scheduling
  import opened ResourceResolution
  import opened TerraformJobs
  import opened Building
  import opened BuilderSoundness

  /** n is the name of the given job of one of m's dependencies. */
  ghost predicate NamesDependency(sub: Graph, kind: JobKind, m: string, n: string) {
    exists d :: Edge(sub, m, d) && n == JobName(kind, d)
  }

  /** g contains the plan jobs of the modules in s, depending on the plan jobs of their dependencies. */
  ghost predicate PlansLinked(g: Graph, sub: Graph, s: set<string>) {
    forall m | m in s ::
      && JobName(PlanJob, m) in g.nodes
      && (forall n :: Edge(g, JobName(PlanJob, m), n) <==> NamesDependency(sub, PlanJob, m, n))
  }

  /** g contains plan and apply jobs of all modules, each depending on the apply jobs of its dependencies. */
  ghost predicate AppliesLinked(g: Graph, sub: Graph) {
    forall m | m in sub.nodes ::
      && JobName(PlanJob, m) in g.nodes && JobName(ApplyJob, m) in g.nodes
      && (forall n :: Edge(g, JobName(PlanJob, m), n) <==> NamesDependency(sub, ApplyJob, m, n))
      && (forall n :: Edge(g, JobName(ApplyJob, m), n) <==>
            n == JobName(PlanJob, m) || NamesDependency(sub, ApplyJob, m, n))
  }

  // ------------------------------------------------------------ planning only

  lemma {:induction false} PlanRounds(g: Graph, sub: Graph, s: set<string>, m: string, k: nat)
    requires PlansLinked(g, sub, s) && s <= sub.nodes && m in s
    requires forall x, d | x in s && Edge(sub, x, d) :: d in s
    ensures JobName(PlanJob, m) in Done(g, k) <==> m in Done(sub, k)
    decreases k
  {
    if k > 0 {
      forall d | Edge(sub, m, d)
        ensures JobName(PlanJob, d) in Done(g, k - 1) <==> d in Done(sub, k - 1)
      {
        PlanRounds(g, sub, s, d, k - 1);
      }
      if m in Done(sub, k) {
        forall n | Edge(g, JobName(PlanJob, m), n) ensures n in Done(g, k - 1) {
          assert NamesDependency(sub, PlanJob, m, n);
        }
      }
      if JobName(PlanJob, m) in Done(g, k) {
        forall d | Edge(sub, m, d) ensures d in Done(sub, k - 1) {
          assert NamesDependency(sub, PlanJob, m, JobName(PlanJob, d));
          assert Edge(g, JobName(PlanJob, m), JobName(PlanJob, d));
        }
      }
    }
  }

  // ------------------------------------------------------------ applying

  /** After 2j rounds plan and apply jobs are out for exactly the modules out after j rounds. */
  lemma {:induction false} EvenRounds(g: Graph, sub: Graph, m: string, j: nat)
    requires AppliesLinked(g, sub) && Closed(sub) && m in sub.nodes
    ensures JobName(PlanJob, m) in Done(g, 2 * j) <==> m in Done(sub, j)
    ensures JobName(ApplyJob, m) in Done(g, 2 * j) <==> m in Done(sub, j)
    decreases 2 * j
  {
    hide AppliesLinked, DependenciesApplied, JobName, Ready;
    if j > 0 {
      var k := 2 * j - 1;
      forall d | Edge(sub, m, d) ensures JobName(ApplyJob, d) in Done(g, k) <==> d in Done(sub, j - 1) {
        OddRounds(g, sub, d, j - 1);
      }
      OddRounds(g, sub, m, j - 1);
      DependenciesAppliedIff(g, sub, m, k, j - 1);
      PlanReady(g, sub, m, k);
      ApplyReady(g, sub, m, k);
    }
  }

  /** One round later the plan jobs are a level ahead of the apply jobs. */
  lemma {:induction false} OddRounds(g: Graph, sub: Graph, m: string, j: nat)
    requires AppliesLinked(g, sub) && Closed(sub) && m in sub.nodes
    ensures JobName(PlanJob, m) in Done(g, 2 * j + 1) <==> m in Done(sub, j + 1)
    ensures JobName(ApplyJob, m) in Done(g, 2 * j + 1) <==> m in Done(sub, j)
    decreases 2 * j + 1
  {
    hide AppliesLinked, DependenciesApplied, JobName, Done;
    forall d | Edge(sub, m, d) ensures JobName(ApplyJob, d) in Done(g, 2 * j) <==> d in Done(sub, j) {
      EvenRounds(g, sub, d, j);
    }
    EvenRounds(g, sub, m, j);
    DependenciesAppliedIff(g, sub, m, 2 * j, j);
    PlanReady(g, sub, m, 2 * j);
    ApplyReady(g, sub, m, 2 * j);
    DoneGrows(sub, j, j + 1);
  }

  ghost predicate DependenciesApplied(g: Graph, sub: Graph, m: string, k: nat) {
    forall d | Edge(sub, m, d) :: JobName(ApplyJob, d) in Done(g, k)
  }

  lemma DependenciesAppliedIff(g: Graph, sub: Graph, m: string, k: nat, j: nat)
    requires m in sub.nodes
    requires forall d | Edge(sub, m, d) :: JobName(ApplyJob, d) in Done(g, k) <==> d in Done(sub, j)
    ensures DependenciesApplied(g, sub, m, k) <==> m in Done(sub, j + 1)
  {
    if DependenciesApplied(g, sub, m, k) {
      forall d | Edge(sub, m, d) ensures d in Done(sub, j) {
        assert JobName(ApplyJob, d) in Done(g, k);
      }
    }
  }

  lemma PlanReady(g: Graph, sub: Graph, m: string, k: nat)
    requires AppliesLinked(g, sub) && m in sub.nodes
    ensures JobName(PlanJob, m) in Done(g, k + 1) <==> DependenciesApplied(g, sub, m, k)
  {
    if DependenciesApplied(g, sub, m, k) {
      forall n | Edge(g, JobName(PlanJob, m), n) ensures n in Done(g, k) {
        assert NamesDependency(sub, ApplyJob, m, n);
      }
    }
    if JobName(PlanJob, m) in Done(g, k + 1) {
      forall d | Edge(sub, m, d) ensures JobName(ApplyJob, d) in Done(g, k) {
        assert NamesDependency(sub, ApplyJob, m, JobName(ApplyJob, d));
        assert Edge(g, JobName(PlanJob, m), JobName(ApplyJob, d));
      }
    }
  }

  lemma ApplyReady(g: Graph, sub: Graph, m: string, k: nat)
    requires AppliesLinked(g, sub) && m in sub.nodes
    ensures JobName(ApplyJob, m) in Done(g, k + 1) <==>
            JobName(PlanJob, m) in Done(g, k) && DependenciesApplied(g, sub, m, k)
  {
    if JobName(PlanJob, m) in Done(g, k) && DependenciesApplied(g, sub, m, k) {
      forall n | Edge(g, JobName(ApplyJob, m), n) ensures n in Done(g, k) {
        assert n == JobName(PlanJob, m) || NamesDependency(sub, ApplyJob, m, n);
      }
    }
    if JobName(ApplyJob, m) in Done(g, k + 1) {
      assert Edge(g, JobName(ApplyJob, m), JobName(PlanJob, m));
      forall d | Edge(sub, m, d) ensures JobName(ApplyJob, d) in Done(g, k) {
        assert NamesDependency(sub, ApplyJob, m, JobName(ApplyJob, d));
        assert Edge(g, JobName(ApplyJob, m), JobName(ApplyJob, d));
      }
    }
  }

  // ------------------------------------------------------------ compiled pipelines

  /** The module jobs of b are the first of the pipeline's jobs, which have names of their own. */
  ghost predicate Placed(b: Build, jobs: seq<Job>) {
    && Closed(b.plan.subgraph) && Elements(b.plan.moduleOrder) == b.plan.subgraph.nodes
    && b.plan.subgraph.nodes <= b.plan.index
    && UniqueNames(jobs) && b.ModulePart() <= jobs
  }

  lemma CompiledIsPlaced(b: Build, jobs: seq<Job>)
    requires Setup(b) && Compiled(b, jobs) && b.plan.subgraph.nodes <= b.plan.index
    ensures Placed(b, jobs)
  {
    CompiledIsAssembled(b, jobs);
    hide Compiled, ModuleJobs, AllProduced, ResolvedAt, Indexable, NamesApart, ContributedOk, UniqueNames;
    assert b.ModulePart() <= jobs;
  }

  /** A module job keeps its own dependencies in the graph of the whole pipeline. */
  lemma PartEdges(part: seq<Job>, jobs: seq<Job>, job: Job)
    requires UniqueNames(jobs) && part <= jobs && job in part
    ensures job.name in JobGraph(jobs).nodes && Succ(JobGraph(jobs), job.name) == job.dependencies
  {
    var i :| 0 <= i < |part| && part[i] == job;
    assert jobs[i] == job;
    JobGraphEdges(jobs, i);
  }

  lemma PlanLinked(b: Build, jobs: seq<Job>, m: string, kind: JobKind)
    requires Placed(b, jobs) && m in b.plan.subgraph.nodes && b.Emits(m)
    requires kind == if b.apply then ApplyJob else PlanJob
    ensures JobName(PlanJob, m) in JobGraph(jobs).nodes
    ensures forall n :: Edge(JobGraph(jobs), JobName(PlanJob, m), n) <==> NamesDependency(b.plan.subgraph, kind, m, n)
  {
    hide UniqueNames, ModuleJobs, NeedsPlan, PlanResources, JobGraph;
    assert m in b.plan.moduleOrder;
    PlanJobEmitted(b, m);
    var job := PlanJobOf(b.plan, b.apply, b.Requests(), m);
    PartEdges(b.ModulePart(), jobs, job);
    forall n ensures n in job.dependencies <==> NamesDependency(b.plan.subgraph, kind, m, n) {
      DependencyNamesAre(b.plan, m, kind, n);
    }
    assert forall n :: Edge(JobGraph(jobs), job.name, n) <==> n in job.dependencies;
  }

  lemma ApplyLinked(b: Build, jobs: seq<Job>, m: string)
    requires Placed(b, jobs) && m in b.plan.subgraph.nodes && b.apply
    ensures JobName(ApplyJob, m) in JobGraph(jobs).nodes
    ensures forall n :: Edge(JobGraph(jobs), JobName(ApplyJob, m), n) <==>
              n == JobName(PlanJob, m) || NamesDependency(b.plan.subgraph, ApplyJob, m, n)
  {
    hide UniqueNames, ModuleJobs, NeedsPlan, PlanResources, JobGraph;
    assert m in b.plan.moduleOrder;
    var job := ApplyJobOf(b.plan, b.Requests(), m);
    ApplyJobEmitted(b, m);
    PartEdges(b.ModulePart(), jobs, job);
    forall n
      ensures n in job.dependencies <==> n == JobName(PlanJob, m) || NamesDependency(b.plan.subgraph, ApplyJob, m, n)
    {
      DependencyNamesAre(b.plan, m, ApplyJob, n);
    }
    assert forall n :: Edge(JobGraph(jobs), job.name, n) <==> n in job.dependencies;
  }

  lemma ApplyJobEmitted(b: Build, m: string)
    requires m in b.plan.moduleOrder && m in b.plan.index && b.apply
    ensures ApplyJobOf(b.plan, b.Requests(), m) in b.ModulePart()
  {
    hide PlanJobOf, ApplyJobOf;
    var job := ApplyJobOf(b.plan, b.Requests(), m);
    assert JobsOf(b.plan, b.apply, b.Requests(), m)[1] == job;
    ModuleJobFrom(b.plan, b.apply, b.Requests(), b.plan.moduleOrder, job);
  }

  lemma AllLinked(b: Build, jobs: seq<Job>)
    requires Placed(b, jobs) && b.apply
    ensures AppliesLinked(JobGraph(jobs), b.plan.subgraph)
  {
    hide UniqueNames, ModuleJobs, JobGraph, JobName, NamesDependency, Edge, AllRequests;
    forall x | x in b.plan.subgraph.nodes
      ensures JobName(PlanJob, x) in JobGraph(jobs).nodes && JobName(ApplyJob, x) in JobGraph(jobs).nodes
      ensures forall n :: Edge(JobGraph(jobs), JobName(PlanJob, x), n) <==>
              NamesDependency(b.plan.subgraph, ApplyJob, x, n)
      ensures forall n :: Edge(JobGraph(jobs), JobName(ApplyJob, x), n) <==>
                n == JobName(PlanJob, x) || NamesDependency(b.plan.subgraph, ApplyJob, x, n)
    {
      PlanLinked(b, jobs, x, ApplyJob);
      ApplyLinked(b, jobs, x);
    }
  }

  /** Applying: a module of layer L has its plan job in layer 2L and its apply job in layer 2L + 1. */
  lemma ApplyLayers(b: Build, jobs: seq<Job>, m: string, level: nat)
    requires Placed(b, jobs) && b.apply && m in b.plan.subgraph.nodes
    ensures JobName(PlanJob, m) in Layer(JobGraph(jobs), 2 * level) <==> m in Layer(b.plan.subgraph, level)
    ensures JobName(ApplyJob, m) in Layer(JobGraph(jobs), 2 * level + 1) <==> m in Layer(b.plan.subgraph, level)
  {
    hide UniqueNames, ModuleJobs, JobGraph, JobName, Layer, AppliesLinked;
    AllLinked(b, jobs);
    LayersFromRounds(JobGraph(jobs), b.plan.subgraph, m, level);
  }

  lemma LayersFromRounds(g: Graph, sub: Graph, m: string, level: nat)
    requires AppliesLinked(g, sub) && Closed(sub) && m in sub.nodes
    ensures JobName(PlanJob, m) in Layer(g, 2 * level) <==> m in Layer(sub, level)
    ensures JobName(ApplyJob, m) in Layer(g, 2 * level + 1) <==> m in Layer(sub, level)
  {
    hide AppliesLinked, Done;
    EvenRounds(g, sub, m, level);
    OddRounds(g, sub, m, level);
    EvenRounds(g, sub, m, level + 1);
    assert 2 * (level + 1) == 2 * level + 1 + 1;
  }

  /** Planning only: an emitted plan job lies in its module's own layer. */
  lemma PlanLayers(b: Build, jobs: seq<Job>, m: string, level: nat)
    requires Placed(b, jobs) && !b.apply && PlanClosed(b) && m in b.plan.subgraph.nodes && b.Emits(m)
    ensures JobName(PlanJob, m) in Layer(JobGraph(jobs), level) <==> m in Layer(b.plan.subgraph, level)
  {
    hide UniqueNames, ModuleJobs, JobGraph, AllRequests, NeedsPlan;
    var g, sub := JobGraph(jobs), b.plan.subgraph;
    var s := set x | x in sub.nodes && b.Emits(x);
    forall x | x in s
      ensures JobName(PlanJob, x) in g.nodes
      ensures forall n :: Edge(g, JobName(PlanJob, x), n) <==> NamesDependency(sub, PlanJob, x, n)
    {
      PlanLinked(b, jobs, x, PlanJob);
    }
    assert forall x, d | x in s && Edge(sub, x, d) :: d in s;
    hide PlanClosed;
    PlanRounds(g, sub, s, m, level);
    PlanRounds(g, sub, s, m, level + 1);
  }

  ghost predicate InGroup(groups: seq<JobGroup>, i: nat, n: string) {
    i < |groups| && n in Names(groups[i].jobs)
  }

  lemma GroupIsLayer(jobs: seq<Job>, groups: seq<JobGroup>, i: nat, n: string)
    requires Outcome(jobs, Scheduled(groups))
    ensures InGroup(groups, i, n) <==> n in Layer(JobGraph(jobs), i)
  {
    var g := JobGraph(jobs);
    DoneGrows(g, i, i + 1);
    DoneGrows(g, i + 1, i + 1);
    if i < |groups| {
      FilterJobsUnique(jobs, Layer(g, i));
    } else {
      DoneGrows(g, |groups|, i);
    }
  }

  lemma LevelMembers(g: Graph, levels: seq<seq<string>>, level: nat, m: string)
    requires LevelsOf(g, levels) && level < |levels| && m in levels[level]
    ensures m in Layer(g, level) && m in g.nodes
  {
    assert m in Elements(levels[level]);
    DoneGrows(g, level + 1, level + 1);
  }

  /**
   The level law: scheduled against the execution levels of the target subgraph, applying puts the
   plan and apply jobs of a level-L module in groups 2L and 2L + 1; planning only puts each emitted
   plan job in group L. This holds whatever jobs are contributed.
   */
  lemma LevelLaw(b: Build, jobs: seq<Job>, groups: seq<JobGroup>, levels: seq<seq<string>>, level: nat, m: string)
    requires Setup(b) && Compiled(b, jobs) && b.plan.subgraph.nodes <= b.plan.index && PlanClosed(b)
    requires Outcome(jobs, Scheduled(groups)) && LevelsOf(b.plan.subgraph, levels)
    requires level < |levels| && m in levels[level]
    ensures b.apply ==>
              InGroup(groups, 2 * level, JobName(PlanJob, m)) && InGroup(groups, 2 * level + 1, JobName(ApplyJob, m))
    ensures !b.apply && b.Emits(m) ==> InGroup(groups, level, JobName(PlanJob, m))
  {
    hide Setup, Compiled, Placed, Outcome, JobGraph, JobName;
    hide Layer, PlanClosed, LevelsOf, InGroup, AllRequests, NeedsPlan;
    CompiledIsPlaced(b, jobs);
    LevelMembers(b.plan.subgraph, levels, level, m);
    if b.apply {
      ApplyLayers(b, jobs, m, level);
      GroupIsLayer(jobs, groups, 2 * level, JobName(PlanJob, m));
      GroupIsLayer(jobs, groups, 2 * level + 1, JobName(ApplyJob, m));
    } else if b.Emits(m) {
      PlanLayers(b, jobs, m, level);
      GroupIsLayer(jobs, groups, level, JobName(PlanJob, m));
    }
  }
}
