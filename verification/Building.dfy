/**
 Compiling a module graph and contributed jobs into a pipeline: which plan outputs are asked for,
 the jobs of every module in topological order, the command jobs, and the resources these consume.
 */
module Building {
  import opened Options
  import opened Digraph
  import opened ModuleGraph
  import opened Topology
  import opened PipelineIR
  import opened ResourceResolution
  import opened TerraformJobs

  /** What planning the module graph yields. */
  datatype JobPlan = JobPlan(targets: seq<string>, moduleOrder: seq<string>, subgraph: Graph, index: set<string>)

  // ------------------------------------------------------------ the module graph

  /** g cut down to the nodes in keep. */
  function Restriction(g: Graph, keep: set<string>): Graph {
    Graph(g.nodes * keep, map u | u in g.adj && u in keep :: FilterIn(g.adj[u], keep))
  }

  lemma RestrictionEdges(g: Graph, keep: set<string>, h: Graph)
    requires RestrictedTo(h, g, keep, keep)
    ensures forall u :: Succ(h, u) == Succ(Restriction(g, keep), u)
    ensures Acyclic(h) <==> Acyclic(Restriction(g, keep))
  {
    var r := Restriction(g, keep);
    forall u ensures Succ(h, u) == Succ(r, u) {
      if u in keep && u !in g.adj {
        assert Succ(g, u) == [];
      }
    }
    assert forall u, v :: Edge(h, u, v) <==> Edge(r, u, v);
    SameEdgesSameCycles(h, r);
  }

  /** Fails exactly when the target subgraph is cyclic; missing targets mean all modules. */
  method PrepareModuleGraph(depGraph: DependencyGraph, targetModules: Option<seq<string>>, allModules: seq<string>,
                            index: set<string>)
    returns (plan: Option<JobPlan>)
    requires depGraph.Valid()
    ensures var targets := if targetModules.Some? then targetModules.value else allModules;
            var sub := Restriction(depGraph.View(), Elements(targets));
            && (plan.None? <==> !Acyclic(sub))
            && (plan.Some? ==>
                  && plan.value.targets == targets && plan.value.index == index
                  && plan.value.subgraph.nodes == sub.nodes && Closed(plan.value.subgraph)
                  && (forall u :: Succ(plan.value.subgraph, u) == Succ(sub, u))
                  && LeastOrder(plan.value.subgraph, plan.value.moduleOrder))
  {
    var targets := if targetModules.Some? then targetModules.value else allModules;
    var sub := depGraph.Subgraph(targets);
    RestrictionEdges(depGraph.View(), Elements(targets), sub.View());
    var sorted := TopologicalSort(sub);
    if sorted.CycleDetected? {
      return None;
    }
    plan := Some(JobPlan(targets, sorted.order, sub.View(), index));
  }

  // ------------------------------------------------------------ demand

  predicate SelectsModule(r: ResourceRequest, m: string) {
    r.scope == AllModules || (r.scope == OneModule && r.modulePath == m)
  }

  /** Some request of this kind selects the module. */
  predicate Wants(requests: seq<ResourceRequest>, kind: ResourceKind, m: string) {
    exists r | r in requests :: r.kind == kind && SelectsModule(r, m)
  }

  function OutputsFor(requests: seq<ResourceRequest>, m: string): PlanOutputs {
    PlanOutputs(Wants(requests, PlanText, m), Wants(requests, PlanJson, m))
  }

  predicate WantsAnyPlan(requests: seq<ResourceRequest>, m: string) {
    exists r | r in requests :: IsPlanKind(r.kind) && SelectsModule(r, m)
  }

  predicate NeedsPlan(apply: bool, requests: seq<ResourceRequest>, m: string) {
    apply || WantsAnyPlan(requests, m)
  }

  function Output(outputs: map<string, PlanOutputs>, m: string): PlanOutputs {
    if m in outputs then outputs[m] else PlanOutputs(false, false)
  }

  function MatchingModulePaths(r: ResourceRequest, targets: seq<string>): seq<string> {
    match r.scope
    case OneModule => if r.modulePath in targets then [r.modulePath] else []
    case AllModules => targets
    case _ => []
  }

  ghost predicate OutputsAre(outputs: map<string, PlanOutputs>, targets: seq<string>, requests: seq<ResourceRequest>) {
    forall m | m in targets :: Output(outputs, m) == OutputsFor(requests, m)
  }

  method RequestedPlanOutputs(targets: seq<string>, requests: seq<ResourceRequest>)
    returns (outputs: map<string, PlanOutputs>)
    ensures OutputsAre(outputs, targets, requests)
  {
    outputs := map[];
    for i := 0 to |requests|
      invariant OutputsAre(outputs, targets, requests[..i])
    {
      var r := requests[i];
      assert requests[..i + 1] == requests[..i] + [r];
      WantsSnoc(requests[..i], r);
      if IsDetailedPlanKind(r.kind) {
        outputs := MarkModules(outputs, MatchingModulePaths(r, targets), r.kind);
      }
    }
    assert requests[..|requests|] == requests;
  }

  lemma WantsSnoc(requests: seq<ResourceRequest>, r: ResourceRequest)
    ensures forall kind, m ::
            Wants(requests + [r], kind, m) <==> Wants(requests, kind, m) || (r.kind == kind && SelectsModule(r, m))
  {
    var more := requests + [r];
    assert forall x :: x in more <==> x in requests || x == r;
  }

  method MarkModules(outputs0: map<string, PlanOutputs>, modules: seq<string>, kind: ResourceKind)
    returns (outputs: map<string, PlanOutputs>)
    requires IsDetailedPlanKind(kind)
    ensures forall m :: Output(outputs, m) ==
              if m in modules
              then PlanOutputs(Output(outputs0, m).text || kind == PlanText,
                               Output(outputs0, m).json || kind == PlanJson)
              else Output(outputs0, m)
  {
    outputs := outputs0;
    for k := 0 to |modules|
      invariant forall m :: Output(outputs, m) ==
                  if m in modules[..k]
                  then PlanOutputs(Output(outputs0, m).text || kind == PlanText,
                                   Output(outputs0, m).json || kind == PlanJson)
                  else Output(outputs0, m)
    {
      assert modules[..k + 1] == modules[..k] + [modules[k]];
      var current := Output(outputs, modules[k]);
      if kind == PlanText {
        current := current.(text := true);
      }
      if kind == PlanJson {
        current := current.(json := true);
      }
      outputs := outputs[modules[k] := current];
    }
    assert modules[..|modules|] == modules;
  }

  method ModuleNeedsPlanJob(apply: bool, requests: seq<ResourceRequest>, m: string) returns (needed: bool)
    ensures needed == NeedsPlan(apply, requests, m)
  {
    if apply {
      return true;
    }
    for i := 0 to |requests|
      invariant !exists r | r in requests[..i] :: IsPlanKind(r.kind) && SelectsModule(r, m)
    {
      var r := requests[i];
      assert requests[..i + 1] == requests[..i] + [r];
      if !IsPlanKind(r.kind) {
        continue;
      }
      if r.scope == AllModules {
        return true;
      }
      if r.scope == OneModule && r.modulePath == m {
        return true;
      }
    }
    assert requests[..|requests|] == requests;
    return false;
  }

  // ------------------------------------------------------------ module jobs

  function NamesOf(kind: JobKind, modules: seq<string>): (r: seq<string>)
    ensures |r| == |modules| && forall i | 0 <= i < |r| :: r[i] == JobName(kind, modules[i])
  {
    seq(|modules|, i requires 0 <= i < |modules| => JobName(kind, modules[i]))
  }

  lemma NamesOfSnoc(kind: JobKind, modules: seq<string>, m: string)
    ensures NamesOf(kind, modules + [m]) == NamesOf(kind, modules) + [JobName(kind, m)]
  {
  }

  /** The names of the jobs of the given kind that belong to m's indexed dependencies. */
  function DependencyNames(plan: JobPlan, m: string, kind: JobKind): seq<string> {
    NamesOf(kind, FilterIn(Succ(plan.subgraph, m), plan.index))
  }

  method ResolveDependencyNames(plan: JobPlan, m: string, kind: JobKind) returns (names: seq<string>)
    ensures names == DependencyNames(plan, m, kind)
  {
    var deps := Succ(plan.subgraph, m);
    names := [];
    for k := 0 to |deps|
      invariant names == NamesOf(kind, FilterIn(deps[..k], plan.index))
    {
      hide JobName, NamesOf, FilterIn;
      FilterInSnoc(deps, k, plan.index);
      if deps[k] !in plan.index {
        continue;
      }
      NamesOfSnoc(kind, FilterIn(deps[..k], plan.index), deps[k]);
      names := names + [JobName(kind, deps[k])];
    }
    assert deps[..|deps|] == deps;
  }

  function PlanJobOf(plan: JobPlan, apply: bool, requests: seq<ResourceRequest>, m: string): Job {
    NewPlanJob(m, DependencyNames(plan, m, if apply then ApplyJob else PlanJob), OutputsFor(requests, m))
  }

  function ApplyJobOf(plan: JobPlan, requests: seq<ResourceRequest>, m: string): Job {
    NewApplyJob(m, DependencyNames(plan, m, ApplyJob), Some(PlanJobOf(plan, true, requests, m)))
  }

  /** The jobs of one module: none unless it is indexed, its plan job when needed, its apply job when applying. */
  function JobsOf(plan: JobPlan, apply: bool, requests: seq<ResourceRequest>, m: string): seq<Job> {
    if m !in plan.index || !NeedsPlan(apply, requests, m) then []
    else [PlanJobOf(plan, apply, requests, m)] + if apply then [ApplyJobOf(plan, requests, m)] else []
  }

  function ModuleJobs(plan: JobPlan, apply: bool, requests: seq<ResourceRequest>, order: seq<string>): seq<Job> {
    if order == [] then []
    else ModuleJobs(plan, apply, requests, order[..|order| - 1]) + JobsOf(plan, apply, requests, order[|order| - 1])
  }

  method BuildModuleJobs(plan: JobPlan, apply: bool, requests: seq<ResourceRequest>,
                         planOutputs: map<string, PlanOutputs>)
    returns (jobs: seq<Job>)
    requires OutputsAre(planOutputs, plan.targets, requests)
    requires forall m | m in plan.moduleOrder :: m in plan.targets
    ensures jobs == ModuleJobs(plan, apply, requests, plan.moduleOrder)
  {
    hide JobsOf, NeedsPlan, OutputsAre;
    jobs := [];
    for i := 0 to |plan.moduleOrder|
      invariant jobs == ModuleJobs(plan, apply, requests, plan.moduleOrder[..i])
    {
      assert plan.moduleOrder[..i + 1][..i] == plan.moduleOrder[..i];
      var added := BuildJobsOf(plan, apply, requests, planOutputs, plan.moduleOrder[i]);
      jobs := jobs + added;
    }
    assert plan.moduleOrder[..|plan.moduleOrder|] == plan.moduleOrder;
  }

  /** One round of the module loop. */
  method BuildJobsOf(plan: JobPlan, apply: bool, requests: seq<ResourceRequest>, planOutputs: map<string, PlanOutputs>,
                     m: string)
    returns (jobs: seq<Job>)
    requires OutputsAre(planOutputs, plan.targets, requests) && m in plan.targets
    ensures jobs == JobsOf(plan, apply, requests, m)
  {
    if m !in plan.index {
      return [];
    }
    jobs := [];
    var planJob: Option<Job> := None;
    var needed := ModuleNeedsPlanJob(apply, requests, m);
    if needed {
      var deps := ResolveDependencyNames(plan, m, if apply then ApplyJob else PlanJob);
      planJob := Some(NewPlanJob(m, deps, Output(planOutputs, m)));
      jobs := [planJob.value];
    }
    if apply {
      var applyDeps := ResolveDependencyNames(plan, m, ApplyJob);
      jobs := jobs + [NewApplyJob(m, applyDeps, planJob)];
    }
  }

  // ------------------------------------------------------------ contributed jobs

  function CommandJobs(contributed: seq<ContributedJob>): (r: seq<Job>)
    ensures |r| == |contributed| && forall i | 0 <= i < |r| :: r[i] == NewCommandJob(contributed[i])
  {
    seq(|contributed|, i requires 0 <= i < |contributed| => NewCommandJob(contributed[i]))
  }

  method BuildContributedJobs(contributed: seq<ContributedJob>) returns (jobs: seq<Job>)
    ensures jobs == CommandJobs(contributed)
  {
    jobs := [];
    for i := 0 to |contributed|
      invariant jobs == CommandJobs(contributed[..i])
    {
      jobs := jobs + [NewCommandJob(contributed[i])];
    }
    assert contributed[..|contributed|] == contributed;
  }

  /** The intent's own requests followed by those of every contributed job. */
  function AllRequests(required: seq<ResourceRequest>, contributed: seq<ContributedJob>): seq<ResourceRequest> {
    if contributed == [] then required
    else AllRequests(required, contributed[..|contributed| - 1]) + contributed[|contributed| - 1].consumes
  }

  method CollectRequests(required: seq<ResourceRequest>, contributed: seq<ContributedJob>)
    returns (requests: seq<ResourceRequest>)
    ensures requests == AllRequests(required, contributed)
  {
    requests := required;
    for i := 0 to |contributed|
      invariant requests == AllRequests(required, contributed[..i])
    {
      assert contributed[..i + 1][..i] == contributed[..i];
      requests := requests + contributed[i].consumes;
    }
    assert contributed[..|contributed|] == contributed;
  }

  function MergeAll(deps: seq<string>, more: seq<string>): (r: seq<string>)
    ensures forall d :: d in r <==> d in deps || (d in more && d != "")
    ensures deps <= r
  {
    if more == [] then deps
    else
      var last := |more| - 1;
      assert more == more[..last] + [more[last]];
      MergeDependency(MergeAll(deps, more[..last]), more[last])
  }

  method MergeDependencies(deps: seq<string>, more: seq<string>) returns (r: seq<string>)
    ensures r == MergeAll(deps, more)
  {
    r := deps;
    for k := 0 to |more|
      invariant r == MergeAll(deps, more[..k])
    {
      assert more[..k + 1][..k] == more[..k];
      r := MergeDependency(r, more[k]);
    }
    assert more[..|more|] == more;
  }

  /**
   after is before with the resources its requests select: what it consumes, the artifacts it
   restores, and its declared dependencies followed by the producers not declared already.
   */
  ghost predicate Resolves(before: Job, after: Job, requests: seq<ResourceRequest>, all: seq<ProducedResource>) {
    exists resources: seq<ResolvedResource>, deps: seq<string> ::
      ResolvesWith(before, after, requests, all, resources, deps)
  }

  ghost predicate ResolvesWith(before: Job, after: Job, requests: seq<ResourceRequest>, all: seq<ProducedResource>,
                               resources: seq<ResolvedResource>, deps: seq<string>)
  {
    && ResolvedAre(resources, requests, all, before.name)
    && InputsFor(after.inputArtifacts, deps, resources)
    && after == before.(consumes := Specs(resources), inputArtifacts := after.inputArtifacts,
                        dependencies := MergeAll(before.dependencies, deps))
  }

  const REQUIRED_CONSUMER := "pipeline required resources"

  /** Everything requested can be resolved. */
  ghost predicate Resolvable(base: seq<Job>, required: seq<ResourceRequest>, contributed: seq<ContributedJob>,
                             allowEmpty: bool)
  {
    && Indexable(AllProduced(base))
    && AllSatisfied(required, AllProduced(base), REQUIRED_CONSUMER, allowEmpty)
    && forall c | c in contributed :: AllSatisfied(c.consumes, AllProduced(base), c.name, allowEmpty)
  }

  /** base with its last jobs, the contributed ones, resolved. */
  ghost predicate ResolvedNth(base: seq<Job>, jobs: seq<Job>, contributed: seq<ContributedJob>, i: int)
    requires 0 <= i < |contributed| <= |base| && |jobs| == |base|
  {
    var k := |base| - |contributed| + i;
    Resolves(base[k], jobs[k], contributed[i].consumes, AllProduced(base))
  }

  ghost predicate ResolvedTail(base: seq<Job>, jobs: seq<Job>, contributed: seq<ContributedJob>, upTo: nat)
    requires |contributed| <= |base| && upTo <= |contributed|
  {
    var start := |base| - |contributed|;
    && |jobs| == |base| && jobs[..start] == base[..start]
    && (forall i {:trigger ResolvedNth(base, jobs, contributed, i)} | 0 <= i < upTo ::
          ResolvedNth(base, jobs, contributed, i))
    && (forall k | start + upTo <= k < |base| :: jobs[k] == base[k])
  }

  lemma NothingResolved(base: seq<Job>, contributed: seq<ContributedJob>)
    requires |contributed| <= |base|
    ensures ResolvedTail(base, base, contributed, 0)
  {
  }

  lemma TailHolds(base: seq<Job>, jobs: seq<Job>, contributed: seq<ContributedJob>, i: nat)
    requires i < |contributed| <= |base| && ResolvedTail(base, jobs, contributed, |contributed|)
    ensures |jobs| == |base|
    ensures var k := |base| - |contributed| + i; Resolves(base[k], jobs[k], contributed[i].consumes, AllProduced(base))
  {
    hide Resolves, AllProduced;
    assert ResolvedNth(base, jobs, contributed, i);
  }

  lemma NextUnresolved(base: seq<Job>, jobs: seq<Job>, contributed: seq<ContributedJob>, i: nat)
    requires i < |contributed| <= |base| && ResolvedTail(base, jobs, contributed, i)
    ensures |jobs| == |base| && jobs[|base| - |contributed| + i] == base[|base| - |contributed| + i]
  {
  }

  lemma ResolvedOneMore(base: seq<Job>, jobs: seq<Job>, contributed: seq<ContributedJob>, i: nat, job: Job)
    requires i < |contributed| <= |base| == |jobs| && ResolvedTail(base, jobs, contributed, i)
    requires Resolves(base[|base| - |contributed| + i], job, contributed[i].consumes, AllProduced(base))
    ensures ResolvedTail(base, jobs[|base| - |contributed| + i := job], contributed, i + 1)
  {
    hide Resolves, AllProduced;
    var next := jobs[|base| - |contributed| + i := job];
    forall k | 0 <= k <= i ensures ResolvedNth(base, next, contributed, k) {
      assert k < i ==> ResolvedNth(base, jobs, contributed, k);
    }
  }

  lemma CommandName(c: ContributedJob)
    ensures NewCommandJob(c).name == c.name
  {
  }

  /** Resolve the requests of one contributed job. */
  method ResolveContributed(job: Job, requests: seq<ResourceRequest>, index: ResourceIndex, noTargets: bool)
    returns (resolved: Option<Job>)
    requires IndexOf(index, index.all) && Indexable(index.all)
    ensures resolved.Some? <==> AllSatisfied(requests, index.all, job.name, noTargets)
    ensures resolved.Some? ==> Resolves(job, resolved.value, requests, index.all)
  {
    var inputs, resources := ResolveForJob(requests, index, job.name, noTargets);
    if inputs.None? {
      return None;
    }
    var dependencies := MergeDependencies(job.dependencies, inputs.value.dependencies);
    var after := job.(consumes := inputs.value.consumes, inputArtifacts := inputs.value.artifacts,
        dependencies := dependencies);
    assert ResolvesWith(job, after, requests, index.all, resources, inputs.value.dependencies);
    resolved := Some(after);
  }

  class IR {
    var jobs: seq<Job>

    constructor (jobs: seq<Job>)
      ensures this.jobs == jobs
    {
      this.jobs := jobs;
    }

    /** Resolve every request against the products of all jobs and write the outcome into the contributed jobs. */
    method ResolvePipelineResources(noTargets: bool, required: seq<ResourceRequest>, contributed: seq<ContributedJob>)
      returns (ok: bool)
      requires |contributed| <= |jobs|
      requires jobs[|jobs| - |contributed|..] == CommandJobs(contributed)
      modifies this
      ensures ok <==> Resolvable(old(jobs), required, contributed, noTargets)
      ensures ok ==> ResolvedTail(old(jobs), jobs, contributed, |contributed|)
    {
      hide Indexable, AllSatisfied, ResolvedTail, IndexOf, AllProduced, NewCommandJob, Resolves;
      ghost var base := jobs;
      var index := BuildResourceIndex(jobs);
      if index.None? {
        return false;
      }
      var resolution := ResolveRequests(required, index.value, REQUIRED_CONSUMER, noTargets);
      if !resolution.Resolution? {
        return false;
      }
      var start := |jobs| - |contributed|;
      NothingResolved(jobs, contributed);
      for i := 0 to |contributed|
        invariant |jobs| == |base| && ResolvedTail(base, jobs, contributed, i)
        invariant forall c | c in contributed[..i] :: AllSatisfied(c.consumes, AllProduced(base), c.name, noTargets)
      {
        assert contributed[..i + 1] == contributed[..i] + [contributed[i]];
        assert base[start..][i] == NewCommandJob(contributed[i]);
        ghost var before := jobs;
        NextUnresolved(base, jobs, contributed, i);
        CommandName(contributed[i]);
        var resolved := ResolveContributed(jobs[start + i], contributed[i].consumes, index.value, noTargets);
        if resolved.None? {
          assert contributed[i] in contributed;
          return false;
        }
        jobs := jobs[start + i := resolved.value];
        ResolvedOneMore(base, before, contributed, i, resolved.value);
      }
      assert contributed[..|contributed|] == contributed;
      ok := true;
    }
  }
}
