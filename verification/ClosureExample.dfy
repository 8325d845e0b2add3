/**
 A plan-only build whose pipeline validation rejects: the plan of one module is asked for, its
 dependency's is not, and the plan job depends on a job that was never emitted.
 */
module ClosureExample {
  import opened Digraph
  import opened Topology
  import opened PipelineIR
  import opened WorkspacePaths
  import opened ResourceResolution
  import opened Validation
  import opened TerraformJobs
  import opened Building
  import opened BuilderSoundness

  /** m depends on d. */
  function TwoModules(m: string, d: string): JobPlan {
    JobPlan([m, d], [d, m], Graph({m, d}, map[m := [d]]), {m, d})
  }

  function PlanRequest(m: string): ResourceRequest {
    ResourceRequest(PlanBinary, OneModule, m, "", false)
  }

  /** Planning only, with the plan of m alone asked for. */
  function AskedAlone(m: string, d: string): Build {
    Build(TwoModules(m, d), false, [PlanRequest(m)], [])
  }

  lemma TwoOrdered(m: string, d: string)
    requires m != d
    ensures var plan := TwoModules(m, d); Closed(plan.subgraph) && TopologicalOrder(plan.subgraph, plan.moduleOrder)
  {
    var g := TwoModules(m, d).subgraph;
    assert forall u, v :: Edge(g, u, v) <==> u == m && v == d;
    assert [d, m][..1] == [d];
  }

  lemma OnlyAskedEmitted(m: string, d: string)
    requires m != d
    ensures var b := AskedAlone(m, d);
            && b.Emits(m) && !b.Emits(d) && !PlanClosed(b)
            && b.Base() == [PlanJobOf(b.plan, false, b.Requests(), m)]
  {
    hide PlanJobOf, ApplyJobOf;
    var b := AskedAlone(m, d);
    assert b.Requests() == [PlanRequest(m)] && PlanRequest(m) in b.Requests();
    assert Edge(b.plan.subgraph, m, d);
    assert [d, m][..1] == [d] && [d][..0] == [];
    assert ModuleJobs(b.plan, false, b.Requests(), []) == [];
    assert ModuleJobs(b.plan, false, b.Requests(), [d]) == [];
  }

  lemma OneProduct(job: Job)
    requires job.outputArtifact.Configured() && |job.produces| == 1
    requires job.produces[0].ref.kind != NoKind && job.produces[0].path != ""
    ensures Indexable(AllProduced([job]))
  {
    assert [job][..0] == [];
    assert AllProduced([job]) == [] + ProducedBy(job);
  }

  lemma NothingContributed(b: Build)
    requires b.contributed == [] && Indexable(AllProduced(b.Base()))
    ensures Compiled(b, b.Base())
  {
    hide Indexable, AllProduced, ModuleJobs;
  }

  lemma AskedOutputs(m: string, d: string)
    ensures var b := AskedAlone(m, d); OutputsFor(b.Requests(), m) == PlanOutputs(false, false)
  {
    assert AskedAlone(m, d).Requests() == [PlanRequest(m)];
  }

  /** The plan job's one product can be indexed and is what a request for the plan of m selects. */
  lemma BinaryAlone(m: string, deps: seq<string>)
    requires ModulePathOk(m)
    ensures var all := AllProduced([NewPlanJob(m, deps, PlanOutputs(false, false))]);
            Indexable(all) && HasMatch(PlanRequest(m), all, REQUIRED_CONSUMER)
  {
    hide ModulePathOk, JobOk, ResourceOk, Joined, Compacted, Normal;
    var job := NewPlanJob(m, deps, PlanOutputs(false, false));
    PlanJobProducts(m, deps, PlanOutputs(false, false));
    PlanNameIsNoConsumer(m);
    assert |job.produces| == 1 && job.produces[0] in job.produces;
    OneProduct(job);
    OneMatch(job, PlanRequest(m));
  }

  lemma OneMatch(job: Job, r: ResourceRequest)
    requires |job.produces| == 1 && ResourceMatches(r, job.produces[0].ref) && job.name != REQUIRED_CONSUMER
    ensures HasMatch(r, AllProduced([job]), REQUIRED_CONSUMER)
  {
    assert [job][..0] == [];
    assert AllProduced([job]) == [] + ProducedBy(job);
    assert Selects(r, AllProduced([job])[0], REQUIRED_CONSUMER);
  }

  lemma PlanNameIsNoConsumer(m: string)
    ensures JobName(PlanJob, m) != REQUIRED_CONSUMER
  {
    assert JobName(PlanJob, m)[1] == 'l' && REQUIRED_CONSUMER[1] == 'i';
  }

  lemma AskedResolves(m: string, d: string)
    requires ModulePathOk(m) && m != d
    ensures var b := AskedAlone(m, d);
            Compiled(b, b.Base()) && Resolvable(b.Base(), b.required, b.contributed, false)
  {
    hide ModulePathOk, ModuleJobs, Compiled, Indexable, AllProduced, NewPlanJob, PlanClosed, Wants, HasMatch, RequestOk;
    var b := AskedAlone(m, d);
    OnlyAskedEmitted(m, d);
    AskedOutputs(m, d);
    BinaryAlone(m, DependencyNames(b.plan, m, PlanJob));
    NothingContributed(b);
    PlanRequestOk(m);
  }

  lemma PlanRequestOk(m: string)
    requires ModulePathOk(m)
    ensures RequestOk(PlanRequest(m))
  {
  }

  lemma AskedSetup(m: string, d: string)
    requires ModulePathOk(m) && ModulePathOk(d) && Dashed(m) != Dashed(d)
    ensures Setup(AskedAlone(m, d))
  {
    hide ModulePathOk, Dashed, ContributedOk;
    TwoOrdered(m, d);
  }

  /** The build meets every assumption, resolves, and its pipeline is still not well formed. */
  lemma ModuleRequestCanBreakClosure(m: string, d: string)
    requires ModulePathOk(m) && ModulePathOk(d) && Dashed(m) != Dashed(d)
    ensures var b := AskedAlone(m, d);
            && Setup(b) && Compiled(b, b.Base()) && Resolvable(b.Base(), b.required, b.contributed, false)
            && !WellFormed(b.Base())
  {
    AskedSetup(m, d);
    AskedResolves(m, d);
    OnlyAskedEmitted(m, d);
    hide Setup, Compiled, Resolvable, PlanClosed, WellFormed, ModuleJobs, AskedAlone, PlanJobOf, ModulePathOk;
    hide Dashed, NoArtifactClash, DeclaredClosed, NormalContributed, Awaiting, Acyclic, AllRequests;
    BuilderExact(AskedAlone(m, d), AskedAlone(m, d).Base());
  }

  /** The same at two concrete modules. */
  lemma AppWithoutDb()
    ensures var b := AskedAlone("app", "db");
            && Setup(b) && Compiled(b, b.Base()) && Resolvable(b.Base(), b.required, b.contributed, false)
            && !WellFormed(b.Base())
  {
    hide Setup, Compiled, Resolvable, WellFormed, ModuleJobs, AskedAlone, ModulePathOk, Dashed, AllRequests;
    ShortNamesAreModules();
    ModuleRequestCanBreakClosure("app", "db");
  }

  lemma ShortNamesAreModules()
    ensures ModulePathOk("app") && ModulePathOk("db") && Dashed("app") != Dashed("db")
  {
    NoSlashOneSegment("app");
    NoSlashOneSegment("db");
    assert Dashed("app")[0] == 'a' && Dashed("db")[0] == 'd';
  }
}
