/**
 The whole compilation, from module graph and requests to a validated pipeline.
 */
module Compiling {
  import opened Options
  import opened Digraph
  import opened ModuleGraph
  import opened Topology
  import opened PipelineIR
  import opened ResourceResolution
  import opened Validation
  import opened TerraformJobs
  import opened Building
  import opened BuilderSoundness

  datatype BuildResult =
    | Built(jobs: seq<Job>)
    | CyclicModules
    | InvalidRequests
    | Unresolvable
    | Rejected(jobs: seq<Job>, verdict: Verdict)

  ghost predicate RequestsOk(required: seq<ResourceRequest>, contributed: seq<ContributedJob>) {
    && (forall r | r in required :: RequestOk(r))
    && (forall c, r | c in contributed && r in c.consumes :: RequestOk(r))
  }

  method RequestsValid(requests: seq<ResourceRequest>) returns (ok: bool)
    ensures ok <==> forall r | r in requests :: RequestOk(r)
  {
    for i := 0 to |requests|
      invariant forall r | r in requests[..i] :: RequestOk(r)
    {
      assert requests[..i + 1] == requests[..i] + [requests[i]];
      if !RequestOk(requests[i]) {
        return false;
      }
    }
    assert requests[..|requests|] == requests;
    return true;
  }

  method ValidateBuildRequests(required: seq<ResourceRequest>, contributed: seq<ContributedJob>) returns (ok: bool)
    ensures ok <==> RequestsOk(required, contributed)
  {
    ok := RequestsValid(required);
    if !ok {
      return;
    }
    for i := 0 to |contributed|
      invariant forall c, r | c in contributed[..i] && r in c.consumes :: RequestOk(r)
    {
      assert contributed[..i + 1] == contributed[..i] + [contributed[i]];
      ok := RequestsValid(contributed[i].consumes);
      if !ok {
        assert contributed[i] in contributed;
        return;
      }
    }
    assert contributed[..|contributed|] == contributed;
    ok := true;
  }

  function Targets(targetModules: Option<seq<string>>, allModules: seq<string>): seq<string> {
    if targetModules.Some? then targetModules.value else allModules
  }

  /** The plan is the target subgraph of depGraph, in its least topological order. */
  ghost predicate PlannedFrom(plan: JobPlan, g: Graph, targets: seq<string>, index: set<string>) {
    && plan.targets == targets && plan.index == index
    && plan.subgraph.nodes == Restriction(g, Elements(targets)).nodes && Closed(plan.subgraph)
    && (forall u :: Succ(plan.subgraph, u) == Succ(Restriction(g, Elements(targets)), u))
    && LeastOrder(plan.subgraph, plan.moduleOrder)
  }

  /** The jobs of the pipeline before its resources are resolved. */
  method BuildJobs(b: Build) returns (jobs: seq<Job>)
    requires forall m | m in b.plan.moduleOrder :: m in b.plan.targets
    ensures jobs == b.Base()
  {
    var requests := CollectRequests(b.required, b.contributed);
    var planOutputs := RequestedPlanOutputs(b.plan.targets, requests);
    var moduleJobs := BuildModuleJobs(b.plan, b.apply, requests, planOutputs);
    var commandJobs := BuildContributedJobs(b.contributed);
    jobs := moduleJobs + commandJobs;
  }

  method BuildProjectIR(depGraph: DependencyGraph, targetModules: Option<seq<string>>, allModules: seq<string>,
                        index: set<string>, apply: bool, required: seq<ResourceRequest>,
                        contributed: seq<ContributedJob>)
    returns (r: BuildResult, ghost b: Build)
    requires depGraph.Valid()
    ensures var targets := Targets(targetModules, allModules);
            && (r.CyclicModules? <==> !Acyclic(Restriction(depGraph.View(), Elements(targets))))
            && (!r.CyclicModules? ==>
                  PlannedFrom(b.plan, depGraph.View(), targets, index)
                  && b == Build(b.plan, apply, required, contributed))
            && (!r.CyclicModules? ==> (r.InvalidRequests? <==> !RequestsOk(required, contributed)))
            && (!r.CyclicModules? && !r.InvalidRequests? ==>
                  (r.Unresolvable? <==> !Resolvable(b.Base(), required, contributed, targets == [])))
    ensures r.Built? || r.Rejected? ==> Compiled(b, r.jobs)
    ensures r.Built? ==> WellFormed(r.jobs)
    ensures (r.Built? || r.Rejected?) && Setup(b) ==> (r.Built? <==> Sound(b))
  {
    hide Setup, Sound, WellFormed, Compiled, Restriction, Acyclic, LeastOrder, RequestsOk;
    hide ResolvedTail, Resolvable;
    var plan := PrepareModuleGraph(depGraph, targetModules, allModules, index);
    if plan.None? {
      return CyclicModules, Build(JobPlan([], [], Graph({}, map[]), {}), apply, required, contributed);
    }
    var build := Build(plan.value, apply, required, contributed);
    b := build;
    var ok := ValidateBuildRequests(required, contributed);
    if !ok {
      return InvalidRequests, b;
    }
    OrderWithinTargets(plan.value, depGraph.View());
    var jobs := BuildJobs(build);
    BaseTail(build);
    var ir := new IR(jobs);
    ok := ir.ResolvePipelineResources(|plan.value.targets| == 0, required, contributed);
    if !ok {
      return Unresolvable, b;
    }
    ResolvedIsCompiled(build, ir.jobs, |plan.value.targets| == 0);
    var verdict := Validate(ir.jobs);
    if Setup(b) {
      BuilderExact(b, ir.jobs);
    }
    if !verdict.Accepted? {
      return Rejected(ir.jobs, verdict), b;
    }
    r := Built(ir.jobs);
  }

  lemma OrderWithinTargets(plan: JobPlan, g: Graph)
    requires plan.subgraph.nodes == Restriction(g, Elements(plan.targets)).nodes
    requires LeastOrder(plan.subgraph, plan.moduleOrder)
    ensures forall m | m in plan.moduleOrder :: m in plan.targets
  {
    forall m | m in plan.moduleOrder ensures m in plan.targets {
      assert m in Elements(plan.moduleOrder);
    }
  }

  lemma BaseTail(b: Build)
    ensures |b.contributed| <= |b.Base()|
    ensures b.Base()[|b.Base()| - |b.contributed|..] == CommandJobs(b.contributed)
  {
    hide ModuleJobs, AllRequests;
  }

  lemma ResolvedIsCompiled(b: Build, jobs: seq<Job>, noTargets: bool)
    requires Resolvable(b.Base(), b.required, b.contributed, noTargets)
    requires ResolvedTail(b.Base(), jobs, b.contributed, |b.contributed|)
    ensures Compiled(b, jobs)
  {
    hide ModuleJobs, AllRequests, Resolves;
  }

  /**
   Demand analysis is exact: a plan job exists for exactly the modules that need one, produces the
   text or JSON plan exactly when some request of that kind selects its module, and always the plan
   binary; its artifact carries the paths of its products and no others.
   */
  lemma DemandExact(b: Build, jobs: seq<Job>, m: string)
    requires Setup(b) && Compiled(b, jobs) && m in b.plan.subgraph.nodes
    ensures JobName(PlanJob, m) in Names(jobs) <==> b.Emits(m)
    ensures forall job | job in jobs && job.name == JobName(PlanJob, m) ::
              && HasKind(job.produces, PlanBinary)
              && (HasKind(job.produces, PlanText) <==> Wants(b.Requests(), PlanText, m))
              && (HasKind(job.produces, PlanJson) <==> Wants(b.Requests(), PlanJson, m))
              && (forall spec | spec in job.produces :: spec.ref.modulePath == m)
              && job.outputArtifact.paths == ResourcePaths(job.produces)
  {
    CompiledIsAssembled(b, jobs);
    OrderInNodes(b.plan);
    if JobName(PlanJob, m) in Names(jobs) {
      DependencyEmitted(b, m);
    }
    if b.Emits(m) {
      PlanJobEmitted(b, m);
      assert ModulePathOk(m);
      hide Setup, Compiled, ModuleJobs, Wants, NeedsPlan;
      hide ResolvedAt, Indexable, AllProduced, JobOk, AllRequests, DependencyNames;
      var planJob := PlanJobOf(b.plan, b.apply, b.Requests(), m);
      InPrefix(b.ModulePart(), jobs, planJob);
      InNames(jobs, planJob);
      PlanJobProducts(m, planJob.dependencies, OutputsFor(b.Requests(), m));
      assert planJob.produces[0] in planJob.produces;
      forall job | job in jobs && job.name == JobName(PlanJob, m) ensures job == planJob {
        NameDecides(jobs, job, planJob);
      }
    }
    forall job | job in jobs && job.name == JobName(PlanJob, m) ensures b.Emits(m) {
      InNames(jobs, job);
    }
  }

  lemma InNames(jobs: seq<Job>, job: Job)
    requires job in jobs
    ensures job.name in Names(jobs)
  {
    var i :| 0 <= i < |jobs| && jobs[i] == job;
    assert Names(jobs)[i] == job.name;
  }
}
