/**
 Which builds resolve, told from their requests, modules and contributed jobs: no resource may have
 two producers, and each request must find something, be optional, or be allowed to find nothing.
 */
module Resolvability {
  import opened Options
  import opened Digraph
  import opened PipelineIR
  import opened WorkspacePaths
  import opened ResourceResolution
  import opened Validation
  import opened TerraformJobs
  import opened Building
  import opened BuilderSoundness
  import opened PipelineContent
  import opened RequestedResources
  import opened Producers

  // ------------------------------------------------------------ the products of a build

  lemma {:induction false} RequestsAre(required: seq<ResourceRequest>, contributed: seq<ContributedJob>,
                                       r: ResourceRequest)
    ensures r in AllRequests(required, contributed) <==>
            r in required || exists c :: c in contributed && r in c.consumes
  {
    if contributed != [] {
      var init, last := contributed[..|contributed| - 1], contributed[|contributed| - 1];
      assert contributed == init + [last];
      RequestsAre(required, init, r);
    }
  }

  /** Some request of the build is for plans of this kind, for all modules or for m. */
  ghost predicate Asked(b: Build, kind: ResourceKind, m: string) {
    exists r :: r in b.Requests() && r.kind == kind
           && (r.scope == AllModules || (r.scope == OneModule && r.modulePath == m))
  }

  /** The build writes m's plan of this kind: the binary if any kind is asked for or it applies. */
  ghost predicate PlanWritten(b: Build, kind: ResourceKind, m: string) {
    && m in b.plan.subgraph.nodes && m in b.plan.index
    && match kind
       case PlanBinary => b.apply || Asked(b, PlanBinary, m) || Asked(b, PlanText, m) || Asked(b, PlanJson, m)
       case PlanText => Asked(b, PlanText, m)
       case PlanJson => Asked(b, PlanJson, m)
       case _ => false
  }

  lemma WrittenIsPlanned(b: Build, m: string, kind: ResourceKind)
    requires PlanWritten(b, kind, m)
    ensures m in b.plan.subgraph.nodes && m in b.plan.index
            && (kind == PlanBinary || kind == PlanText || kind == PlanJson)
  {
  }

  lemma AskedIsWanted(b: Build, m: string)
    ensures b.Emits(m) <==>
              m in b.plan.index && (b.apply || Asked(b, PlanBinary, m) || Asked(b, PlanText, m)
                  || Asked(b, PlanJson, m))
    ensures forall kind :: Asked(b, kind, m) <==> Wants(b.Requests(), kind, m)
  {
    hide AllRequests;
  }

  lemma PlanJobWrites(b: Build, m: string, spec: ResourceSpec)
    requires ModulePathOk(m) && m in b.plan.subgraph.nodes && b.Emits(m)
    ensures spec in PlanJobOf(b.plan, b.apply, b.Requests(), m).produces <==>
            exists kind :: PlanWritten(b, kind, m) && spec == Product(m, kind)
  {
    hide ModulePathOk, AllRequests, PlanResources, Asked, Wants, ProductPath, PlanOperation, PlanArtifact, Product;
    hide DependencyNames, NeedsPlan;
    var outputs := OutputsFor(b.Requests(), m);
    AskedIsWanted(b, m);
    PlanProducts(m, outputs);
    assert forall s :: s in PlanResources(m, outputs) <==>
             || s == Product(m, PlanBinary)
             || (outputs.text && s == Product(m, PlanText)) || (outputs.json && s == Product(m, PlanJson));
    assert PlanWritten(b, PlanBinary, m);
  }

  /** The job publishes m's plan of this kind. */
  ghost predicate PlanFrom(b: Build, q: Job, spec: ResourceSpec, m: string, kind: ResourceKind) {
    && PlanWritten(b, kind, m) && spec == Product(m, kind)
    && q == PlanJobOf(b.plan, b.apply, b.Requests(), m)
  }

  ghost predicate ContributedFrom(b: Build, q: Job, spec: ResourceSpec, c: ContributedJob) {
    c in b.contributed && spec in c.produces && q == NewCommandJob(c)
  }

  lemma InBase(b: Build, q: Job)
    ensures q in b.Base() <==> q in b.ModulePart() || exists c :: c in b.contributed && q == NewCommandJob(c)
  {
    hide ModuleJobs, AllRequests, NewCommandJob;
    var commands := CommandJobs(b.contributed);
    if c :| c in b.contributed && q == NewCommandJob(c) {
      var i :| 0 <= i < |b.contributed| && b.contributed[i] == c;
      assert commands[i] == q;
    }
    if q in commands {
      var i :| 0 <= i < |commands| && commands[i] == q;
      assert b.contributed[i] in b.contributed;
    }
  }

  lemma ModuleProductIsPlan(b: Build, q: Job, spec: ResourceSpec)
    requires GraphPlanned(b.plan) && q in b.ModulePart() && spec in q.produces
    ensures exists m, kind :: PlanFrom(b, q, spec, m, kind)
  {
    hide GraphPlanned, ModuleJobs, JobsOf, PlanJobOf, ApplyJobOf, AllRequests, ModulePathOk, NeedsPlan, PlanWritten;
    hide Product;
    var m := ModuleJobShape(b, q);
    ApplyProducesNothing(b, m);
    PlanJobWrites(b, m, spec);
    var kind :| PlanWritten(b, kind, m) && spec == Product(m, kind);
    assert PlanFrom(b, q, spec, m, kind);
  }

  lemma PlanIsModuleProduct(b: Build, q: Job, spec: ResourceSpec, m: string, kind: ResourceKind)
    requires GraphPlanned(b.plan) && PlanFrom(b, q, spec, m, kind)
    ensures q in b.ModulePart() && spec in q.produces
  {
    hide GraphPlanned, ModuleJobs, JobsOf, PlanJobOf, AllRequests, ModulePathOk, NeedsPlan, Asked, Product;
    AskedIsWanted(b, m);
    PlannedPathOk(b, m);
    PlanJobEmitted(b, m);
    PlanJobWrites(b, m, spec);
  }

  lemma PlannedPathOk(b: Build, m: string)
    requires GraphPlanned(b.plan) && m in b.plan.subgraph.nodes && m in b.plan.index
    ensures ModulePathOk(m) && m in b.plan.moduleOrder
  {
    hide ModulePathOk;
    OrderInNodes(b.plan);
  }

  lemma ApplyProducesNothing(b: Build, m: string)
    ensures ApplyJobOf(b.plan, b.Requests(), m).produces == []
  {
    hide AllRequests, PlanJobOf, ApplyOperation, JobName, DependencyNames;
  }

  /** The products of a build are the plans it writes and what the contributed jobs declare. */
  lemma BaseProduct(b: Build, q: Job, spec: ResourceSpec)
    requires GraphPlanned(b.plan)
    ensures q in b.Base() && spec in q.produces <==>
            (exists m, kind :: PlanFrom(b, q, spec, m, kind)) || exists c :: ContributedFrom(b, q, spec, c)
  {
    hide GraphPlanned, PlanFrom, ModuleJobs, AllRequests, NewCommandJob;
    InBase(b, q);
    CommandProducts(b, q);
    if q in b.ModulePart() && spec in q.produces {
      ModuleProductIsPlan(b, q, spec);
    }
    if m, kind :| PlanFrom(b, q, spec, m, kind) {
      PlanIsModuleProduct(b, q, spec, m, kind);
    }
    if c :| c in b.contributed && q == NewCommandJob(c) && spec in q.produces {
      assert ContributedFrom(b, q, spec, c);
    }
    if c :| ContributedFrom(b, q, spec, c) {
      assert q in b.Base();
    }
  }

  lemma CommandProducts(b: Build, q: Job)
    ensures forall c | c in b.contributed && q == NewCommandJob(c) :: q.produces == c.produces && q.name == c.name
  {
    hide ResultArtifact;
  }

  // ------------------------------------------------------------ one producer per resource

  /** Contributed jobs declare neither one another's products nor a plan that the build writes. */
  ghost predicate ProductsApart(b: Build) {
    && (forall c, d, s, u | c in b.contributed && d in b.contributed && c.name != d.name
                            && s in c.produces && u in d.produces :: s.ref != u.ref)
    && (forall c, s, m, kind | c in b.contributed && s in c.produces && PlanWritten(b, kind, m) ::
          s.ref != ResourceRef(kind, m, ""))
  }

  lemma OwnRefsInBase(b: Build, q: Job)
    requires Setup(b) && q in b.Base()
    ensures OwnRefsDistinct(q)
  {
    hide ModuleJobs, AllRequests, NewCommandJob, PlanJobOf, ApplyJobOf, ContributedOk, GraphPlanned, NamesApart;
    hide JobsOf, ModulePathOk, NeedsPlan, OwnRefsDistinct;
    InBase(b, q);
    if q in b.ModulePart() {
      var m := ModuleJobShape(b, q);
      ApplyProducesNothing(b, m);
      PlanRefsDistinct(b, m);
      NoProductsDistinct(q);
    } else {
      var c :| c in b.contributed && q == NewCommandJob(c);
      CommandRefsDistinct(c);
    }
  }

  lemma NoProductsDistinct(q: Job)
    ensures q.produces == [] ==> OwnRefsDistinct(q)
  {
  }

  lemma CommandRefsDistinct(c: ContributedJob)
    requires ContributedOk(c)
    ensures OwnRefsDistinct(NewCommandJob(c))
  {
    hide ResultArtifact, RequestOk, NotBlank, ResourceOk;
  }

  lemma PlanRefsDistinct(b: Build, m: string)
    requires ModulePathOk(m)
    ensures OwnRefsDistinct(PlanJobOf(b.plan, b.apply, b.Requests(), m))
  {
    hide ModulePathOk, AllRequests, PlanResources, Wants, ProductPath, PlanOperation, PlanArtifact, DependencyNames;
    PlanProducts(m, OutputsFor(b.Requests(), m));
  }

  lemma RefsInBase(b: Build, q: Job, t: Job)
    requires Setup(b) && ProductsApart(b) && q in b.Base() && t in b.Base() && q.name != t.name
    ensures RefsApart(q, t)
  {
    hide ModuleJobs, AllRequests, NewCommandJob, PlanJobOf, ContributedOk, GraphPlanned, NamesApart, PlanWritten;
    hide ProductPath;
    CommandProducts(b, q);
    CommandProducts(b, t);
    forall s, u | s in q.produces && u in t.produces ensures s.ref != u.ref {
      BaseProduct(b, q, s);
      BaseProduct(b, t, u);
    }
  }

  lemma ApartWhenDistinct(b: Build)
    requires Setup(b)
    requires forall q, t | q in b.Base() && t in b.Base() && q.name != t.name :: RefsApart(q, t)
    ensures ProductsApart(b)
  {
    hide ModuleJobs, AllRequests, NewCommandJob, PlanJobOf, ContributedOk, GraphPlanned, NamesApart, PlanWritten;
    hide ProductPath;
    forall c, d, s, u | c in b.contributed && d in b.contributed && c.name != d.name && s in c.produces
                        && u in d.produces
      ensures s.ref != u.ref
    {
      ContributedInBase(b, c, s);
      ContributedInBase(b, d, u);
      assert RefsApart(NewCommandJob(c), NewCommandJob(d));
    }
    forall c, s, m, kind | c in b.contributed && s in c.produces && PlanWritten(b, kind, m)
      ensures s.ref != ResourceRef(kind, m, "")
    {
      ContributedInBase(b, c, s);
      var planJob := PlanInBase(b, m, kind);
      WrittenIsPlanned(b, m, kind);
      PlanNameApart(b, c, m);
      assert RefsApart(NewCommandJob(c), planJob);
      assert Product(m, kind).ref == ResourceRef(kind, m, "");
    }
  }

  lemma ContributedInBase(b: Build, c: ContributedJob, s: ResourceSpec)
    requires GraphPlanned(b.plan) && c in b.contributed && s in c.produces
    ensures var q := NewCommandJob(c); q in b.Base() && s in q.produces && q.name == c.name
  {
    hide GraphPlanned, ModuleJobs, AllRequests, NewCommandJob;
    CommandProducts(b, NewCommandJob(c));
    assert ContributedFrom(b, NewCommandJob(c), s, c);
    BaseProduct(b, NewCommandJob(c), s);
  }

  lemma PlanInBase(b: Build, m: string, kind: ResourceKind) returns (planJob: Job)
    requires GraphPlanned(b.plan) && PlanWritten(b, kind, m)
    ensures planJob in b.Base() && Product(m, kind) in planJob.produces && planJob.name == JobName(PlanJob, m)
    ensures PlanFrom(b, planJob, Product(m, kind), m, kind)
  {
    planJob := PlanJobOf(b.plan, b.apply, b.Requests(), m);
    hide GraphPlanned, ModuleJobs, AllRequests, PlanWritten, Product, PlanResources, PlanOperation, PlanArtifact;
    hide DependencyNames, OutputsFor, JobName;
    assert PlanFrom(b, planJob, Product(m, kind), m, kind);
    BaseProduct(b, planJob, Product(m, kind));
  }

  lemma PlanNameApart(b: Build, c: ContributedJob, m: string)
    requires NamesApart(b.plan, b.contributed) && c in b.contributed && m in b.plan.subgraph.nodes
    ensures c.name != JobName(PlanJob, m)
  {
    hide JobName;
  }

  lemma PublishedInBase(b: Build, q: Job, spec: ResourceSpec)
    requires Setup(b) && q in b.Base() && spec in q.produces
    ensures Publishable(Listing(q, spec)) && RefOk(spec.ref)
  {
    hide ModuleJobs, AllRequests, ContributedOk, GraphPlanned, NamesApart, Publishable, RefOk, PlanJobOf;
    hide PlanWritten, ModulePathOk, ProductPath;
    BaseProduct(b, q, spec);
    if m, kind :| PlanFrom(b, q, spec, m, kind) {
      WrittenIsPlanned(b, m, kind);
      PlannedPathOk(b, m);
      PlanPublished(b, m, spec);
    } else {
      var c :| ContributedFrom(b, q, spec, c);
      CommandPublished(c, spec);
    }
  }

  lemma PlanPublished(b: Build, m: string, spec: ResourceSpec)
    requires ModulePathOk(m) && spec in PlanJobOf(b.plan, b.apply, b.Requests(), m).produces
    ensures Publishable(Listing(PlanJobOf(b.plan, b.apply, b.Requests(), m), spec)) && RefOk(spec.ref)
  {
    var deps := DependencyNames(b.plan, m, if b.apply then ApplyJob else PlanJob);
    PlanJobProducts(m, deps, OutputsFor(b.Requests(), m));
    hide ModulePathOk, AllRequests, OutputsFor, DependencyNames, NewPlanJob, JobOk;
    hide Segments, SafeSegment;
    assert PlanSpecOk(spec, m);
  }

  lemma CommandPublished(c: ContributedJob, spec: ResourceSpec)
    requires ContributedOk(c) && spec in c.produces
    ensures Publishable(Listing(NewCommandJob(c), spec)) && RefOk(spec.ref)
  {
    hide RequestOk, NotBlank, Segments, SafeSegment, Joined;
    assert ResourceOk(spec);
    var i :| 0 <= i < |c.produces| && c.produces[i] == spec;
    CompactedNonEmpty(ResourcePaths(c.produces), i);
  }

  lemma {:induction false} CompactedNonEmpty(paths: seq<string>, i: nat)
    requires i < |paths| && paths[i] != ""
    ensures Compacted(paths) != []
  {
    if i < |paths| - 1 {
      CompactedNonEmpty(paths[..|paths| - 1], i);
    }
  }

  lemma IndexableMeans(b: Build)
    requires Setup(b)
    ensures Indexable(AllProduced(b.Base())) <==> ProductsApart(b)
  {
    BaseNames(b);
    DistinctRefsMeans(b.Base());
    hide Setup, ModuleJobs, AllRequests, AllProduced, DistinctRefs, OwnRefsDistinct, RefsApart, ProductsApart;
    hide Publishable, UniqueNames, NewCommandJob;
    forall p | p in AllProduced(b.Base()) ensures Publishable(p) {
      ListedWhenProduced(b.Base(), p);
      var q :| q in b.Base() && p.spec in q.produces && p == Listing(q, p.spec);
      PublishedInBase(b, q, p.spec);
    }
    forall q | q in b.Base() ensures OwnRefsDistinct(q) {
      OwnRefsInBase(b, q);
    }
    if ProductsApart(b) {
      forall q, t | q in b.Base() && t in b.Base() && q.name != t.name ensures RefsApart(q, t) {
        RefsInBase(b, q, t);
      }
    }
    if forall q, t | q in b.Base() && t in b.Base() && q.name != t.name :: RefsApart(q, t) {
      ApartWhenDistinct(b);
    }
  }

  // ------------------------------------------------------------ requests that find something

  ghost predicate AsksForPlanOf(b: Build, r: ResourceRequest, m: string) {
    && m in b.plan.subgraph.nodes && m in b.plan.index
    && (r.kind == PlanBinary || r.kind == PlanText || r.kind == PlanJson)
    && (r.scope == AllModules || (r.scope == OneModule && r.modulePath == m))
  }

  /** The request is for the plan of an emitted module or for what another contributed job declares. */
  ghost predicate Found(b: Build, r: ResourceRequest, consumer: string) {
    || (exists m :: AsksForPlanOf(b, r, m))
    || exists c, spec :: c in b.contributed && c.name != consumer && spec in c.produces && AsksFor(r, spec.ref)
  }

  /** The consumer is not itself a plan job of the build. */
  ghost predicate NotPlanJob(b: Build, consumer: string) {
    forall m | m in b.plan.subgraph.nodes :: consumer != JobName(PlanJob, m)
  }

  lemma FoundWhenMatched(b: Build, r: ResourceRequest, consumer: string, p: ProducedResource)
    requires Setup(b) && RequestOk(r) && p in AllProduced(b.Base()) && Selects(r, p, consumer)
    ensures Found(b, r, consumer)
  {
    hide ModuleJobs, AllRequests, ContributedOk, GraphPlanned, NamesApart, RefOk, PlanWritten, AllProduced;
    hide NewCommandJob, PlanJobOf, RequestOk, AsksFor, ProductPath;
    ListedWhenProduced(b.Base(), p);
    var q :| q in b.Base() && p.spec in q.produces && p == Listing(q, p.spec);
    PublishedInBase(b, q, p.spec);
    MatchingIsAsking(r, p.spec.ref);
    BaseProduct(b, q, p.spec);
    CommandProducts(b, q);
    if m, kind :| PlanFrom(b, q, p.spec, m, kind) {
      WrittenIsPlanned(b, m, kind);
      AskedByModule(r, kind, m);
      assert AsksForPlanOf(b, r, m);
    } else {
      var c :| ContributedFrom(b, q, p.spec, c);
    }
  }

  lemma AskedByModule(r: ResourceRequest, kind: ResourceKind, m: string)
    requires RequestOk(r) && AsksFor(r, ResourceRef(kind, m, ""))
             && (kind == PlanBinary || kind == PlanText || kind == PlanJson)
    ensures r.kind == kind && (r.scope == AllModules || (r.scope == OneModule && r.modulePath == m))
  {
    hide ValidPath, ProducerNameOk;
  }

  lemma MatchedByPlan(b: Build, r: ResourceRequest, consumer: string, m: string)
    requires Setup(b) && RequestOk(r) && r in b.Requests() && NotPlanJob(b, consumer) && AsksForPlanOf(b, r, m)
    ensures HasMatch(r, AllProduced(b.Base()), consumer)
  {
    hide ModuleJobs, AllRequests, ContributedOk, GraphPlanned, NamesApart, RefOk, AllProduced, RequestOk, ProductPath;
    hide PlanJobOf, JobName, ResourceMatches;
    assert Asked(b, r.kind, m);
    assert PlanWritten(b, r.kind, m);
    var planJob := PlanInBase(b, m, r.kind);
    PublishedInBase(b, planJob, Product(m, r.kind));
    MatchingIsAsking(r, Product(m, r.kind).ref);
    ListedWhenProduced(b.Base(), Listing(planJob, Product(m, r.kind)));
    assert Selects(r, Listing(planJob, Product(m, r.kind)), consumer);
  }

  lemma MatchedByContributed(b: Build, r: ResourceRequest, consumer: string, c: ContributedJob, spec: ResourceSpec)
    requires Setup(b) && RequestOk(r) && c in b.contributed && c.name != consumer && spec in c.produces
    requires AsksFor(r, spec.ref)
    ensures HasMatch(r, AllProduced(b.Base()), consumer)
  {
    hide ModuleJobs, AllRequests, ContributedOk, GraphPlanned, NamesApart, RefOk, AllProduced, RequestOk;
    hide NewCommandJob, ResourceMatches, AsksFor;
    var q := NewCommandJob(c);
    ContributedInBase(b, c, spec);
    PublishedInBase(b, q, spec);
    MatchingIsAsking(r, spec.ref);
    ListedWhenProduced(b.Base(), Listing(q, spec));
    assert Selects(r, Listing(q, spec), consumer);
  }

  lemma MatchIsFound(b: Build, r: ResourceRequest, consumer: string)
    requires Setup(b) && RequestOk(r) && r in b.Requests() && NotPlanJob(b, consumer)
    ensures HasMatch(r, AllProduced(b.Base()), consumer) <==> Found(b, r, consumer)
  {
    hide Setup, ModuleJobs, AllRequests, AllProduced, RequestOk, AsksFor, AsksForPlanOf, Selects, NotPlanJob;
    if p :| p in AllProduced(b.Base()) && Selects(r, p, consumer) {
      FoundWhenMatched(b, r, consumer, p);
    }
    if m :| AsksForPlanOf(b, r, m) {
      MatchedByPlan(b, r, consumer, m);
    }
    if c, spec :| c in b.contributed && c.name != consumer && spec in c.produces && AsksFor(r, spec.ref) {
      MatchedByContributed(b, r, consumer, c, spec);
    }
  }

  /** The request is well formed, and finds something unless it may find nothing. */
  ghost predicate Met(b: Build, r: ResourceRequest, consumer: string, noTargets: bool) {
    RequestOk(r) && (Found(b, r, consumer) || r.optional || (noTargets && r.scope == AllModules))
  }

  lemma SatisfiedIsMet(b: Build, r: ResourceRequest, consumer: string, noTargets: bool)
    requires Setup(b) && r in b.Requests() && NotPlanJob(b, consumer)
    ensures RequestOk(r) && Satisfied(r, AllProduced(b.Base()), consumer, noTargets) <==>
            Met(b, r, consumer, noTargets)
  {
    hide Setup, ModuleJobs, AllRequests, AllProduced, Found, HasMatch, NotPlanJob, ValidPath, ProducerNameOk;
    if RequestOk(r) {
      MatchIsFound(b, r, consumer);
    }
  }

  lemma NoPlanJobConsumes(b: Build, c: ContributedJob)
    requires NamesApart(b.plan, b.contributed) && c in b.contributed
    ensures NotPlanJob(b, c.name)
  {
    hide JobName;
  }

  lemma NoPlanJobRequires(b: Build)
    ensures NotPlanJob(b, REQUIRED_CONSUMER)
  {
    forall m | m in b.plan.subgraph.nodes ensures REQUIRED_CONSUMER != JobName(PlanJob, m) {
      assert JobName(PlanJob, m)[1] == 'l' && REQUIRED_CONSUMER[1] == 'i';
    }
  }

  /**
   A build resolves if and only if no resource has two producers and every request is well formed and
   finds something, is optional, or is for all modules of a build without targets.
   */
  lemma ResolvableMeans(b: Build, noTargets: bool)
    requires Setup(b)
    ensures Resolvable(b.Base(), b.required, b.contributed, noTargets) <==>
              && ProductsApart(b)
              && (forall r | r in b.required :: Met(b, r, REQUIRED_CONSUMER, noTargets))
              && forall c, r | c in b.contributed && r in c.consumes :: Met(b, r, c.name, noTargets)
  {
    IndexableMeans(b);
    NoPlanJobRequires(b);
    hide Setup, ModuleJobs, AllRequests, AllProduced, ProductsApart, Met, Indexable, NotPlanJob, Satisfied, RequestOk;
    forall r | r in b.required
      ensures RequestOk(r) && Satisfied(r, AllProduced(b.Base()), REQUIRED_CONSUMER, noTargets) <==>
              Met(b, r, REQUIRED_CONSUMER, noTargets)
    {
      RequestsAre(b.required, b.contributed, r);
      SatisfiedIsMet(b, r, REQUIRED_CONSUMER, noTargets);
    }
    forall c, r | c in b.contributed && r in c.consumes
      ensures RequestOk(r) && Satisfied(r, AllProduced(b.Base()), c.name, noTargets) <==>
              Met(b, r, c.name, noTargets)
    {
      RequestsAre(b.required, b.contributed, r);
      NoPlanJobConsumes(b, c);
      SatisfiedIsMet(b, r, c.name, noTargets);
    }
  }

  /** Asking for the binary plans of all modules can always be met when some module is emitted. */
  lemma AllPlansResolve(b: Build, m: string, optional: bool, noTargets: bool)
    requires Setup(b) && b.contributed == []
    requires b.required == [ResourceRequest(PlanBinary, AllModules, "", "", optional)]
    requires m in b.plan.subgraph.nodes && m in b.plan.index
    ensures Resolvable(b.Base(), b.required, b.contributed, noTargets)
  {
    hide Setup, ModuleJobs, AllRequests, Resolvable;
    ResolvableMeans(b, noTargets);
    assert AsksForPlanOf(b, b.required[0], m);
  }

  /**
   A contributed job that asks for a plan of an emitted module consumes that plan, waits for the job
   that writes it, and restores an artifact under the name of that job's artifact.
   */
  lemma RequestedPlanArrives(b: Build, jobs: seq<Job>, i: nat, r: ResourceRequest, m: string)
    requires Setup(b) && Compiled(b, jobs) && i < |b.contributed|
    requires r in b.contributed[i].consumes && AsksForPlanOf(b, r, m)
    ensures |b.contributed| <= |jobs|
    ensures var job := jobs[|jobs| - |b.contributed| + i];
            exists planJob ::
              && planJob in jobs && planJob.kind == PlanJob && planJob.moduleID == Some(m)
              && Product(m, r.kind) in planJob.produces && Product(m, r.kind) in job.consumes
              && planJob.name in job.dependencies
              && CarriedBy(job.inputArtifacts, planJob.outputArtifact.name)
  {
    hide Setup, Compiled, ModuleJobs, AllRequests, Product, AsksForPlanOf, CarriedBy;
    hide ConsumesRequested, WaitsForRequested, RestoresRequested, Requested;
    var c := b.contributed[i];
    ContributedGains(b, jobs, i);
    var planJob := RequestedPlanJob(b, jobs, c, r, m);
    RequestedArrives(jobs, c, r, planJob, Product(m, r.kind), jobs[|jobs| - |b.contributed| + i]);
  }

  lemma RequestedArrives(jobs: seq<Job>, c: ContributedJob, r: ResourceRequest, q: Job, spec: ResourceSpec, job: Job)
    requires Requested(jobs, c, r, q, spec)
    requires ConsumesRequested(job, jobs, c) && WaitsForRequested(job, jobs, c) && RestoresRequested(job, jobs, c)
    ensures q in jobs && spec in q.produces && spec in job.consumes && q.name in job.dependencies
    ensures CarriedBy(job.inputArtifacts, q.outputArtifact.name)
  {
    RequestIsDeclared(jobs, c, r, q, spec);
    hide AsksFor, RestoredFor, Distinct;
  }

  lemma RequestedPlanJob(b: Build, jobs: seq<Job>, c: ContributedJob, r: ResourceRequest, m: string)
    returns (planJob: Job)
    requires Setup(b) && Compiled(b, jobs) && c in b.contributed && r in c.consumes && AsksForPlanOf(b, r, m)
    ensures Requested(jobs, c, r, planJob, Product(m, r.kind))
    ensures planJob.kind == PlanJob && planJob.moduleID == Some(m)
  {
    hide Compiled, ModuleJobs, AllRequests, ProductPath, AllProduced, ResolvedAt, Indexable, GraphPlanned, NamesApart;
    hide ContributedOk, UniqueNames, AsksFor;
    RequestsAre(b.required, b.contributed, r);
    assert Asked(b, r.kind, m);
    AsksForIts(b, r, m);
    CompiledIsAssembled(b, jobs);
    planJob := PlanInBase(b, m, r.kind);
    PlanIsModuleProduct(b, planJob, Product(m, r.kind), m, r.kind);
    PlanNameApart(b, c, m);
    InPrefix(b.ModulePart(), jobs, planJob);
  }

  lemma AsksForIts(b: Build, r: ResourceRequest, m: string)
    requires AsksForPlanOf(b, r, m)
    ensures AsksFor(r, Product(m, r.kind).ref)
  {
    hide ProductPath;
  }
}
