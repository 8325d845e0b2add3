/**
 When the compiled pipeline is well formed. The pipeline consists of the module jobs in
 topological order followed by the contributed jobs with their requests resolved; validation
 accepts it under exactly the conditions gathered in Sound.
 */
module BuilderSoundness {
  import opened Digraph
  import opened ModuleGraph
  import opened Topology
  import opened PipelineIR
  import opened ResourceResolution
  import opened Validation
  import opened TerraformJobs
  import opened Building

  /** One compilation: the planned module graph, the mode, the requests and the contributed jobs. */
  datatype Build = Build(plan: JobPlan, apply: bool, required: seq<ResourceRequest>, contributed: seq<ContributedJob>) {
    function Requests(): seq<ResourceRequest> {
      AllRequests(required, contributed)
    }

    function ModulePart(): seq<Job> {
      ModuleJobs(plan, apply, Requests(), plan.moduleOrder)
    }

    function Base(): seq<Job> {
      ModulePart() + CommandJobs(contributed)
    }

    predicate Emits(m: string) {
      m in plan.index && NeedsPlan(apply, Requests(), m)
    }
  }

  // ------------------------------------------------------------ hypotheses and conditions

  ghost predicate GraphPlanned(plan: JobPlan) {
    && Closed(plan.subgraph) && TopologicalOrder(plan.subgraph, plan.moduleOrder)
    && forall m | m in plan.subgraph.nodes && m in plan.index :: ModulePathOk(m)
  }

  /** No two jobs that could be emitted share a name. */
  ghost predicate NamesApart(plan: JobPlan, contributed: seq<ContributedJob>) {
    && (forall a, b | a in plan.subgraph.nodes && b in plan.subgraph.nodes && a != b :: Dashed(a) != Dashed(b))
    && (forall i, j | 0 <= i < j < |contributed| :: contributed[i].name != contributed[j].name)
    && (forall c, m | c in contributed && m in plan.subgraph.nodes ::
          c.name != JobName(PlanJob, m) && c.name != JobName(ApplyJob, m))
  }

  ghost predicate Setup(b: Build) {
    && GraphPlanned(b.plan) && NamesApart(b.plan, b.contributed)
    && forall c | c in b.contributed :: ContributedOk(c)
  }

  /** jobs is the pipeline after successful resolution. */
  ghost predicate Compiled(b: Build, jobs: seq<Job>) {
    Indexable(AllProduced(b.Base())) && ResolvedTail(b.Base(), jobs, b.contributed, |b.contributed|)
  }

  /** Whoever gets a plan job has only dependencies that get one: automatic when applying. */
  ghost predicate PlanClosed(b: Build) {
    forall m, d | m in b.plan.subgraph.nodes && b.Emits(m) && Edge(b.plan.subgraph, m, d) && d in b.plan.index ::
      b.Emits(d)
  }

  /** Applying, or asking for the plans of all modules, closes the plan jobs under dependencies. */
  lemma ClosedWhenAllAsked(b: Build)
    requires b.apply || exists r :: r in b.Requests() && IsPlanKind(r.kind) && r.scope == AllModules
    ensures PlanClosed(b)
  {
    hide AllRequests;
    if r :| !b.apply && r in b.Requests() && IsPlanKind(r.kind) && r.scope == AllModules {
      forall m ensures WantsAnyPlan(b.Requests(), m) {
        assert SelectsModule(r, m);
      }
    }
  }

  ghost predicate DeclaredClosed(contributed: seq<ContributedJob>, jobs: seq<Job>) {
    forall c, d | c in contributed && d in c.dependencies :: d in Names(jobs)
  }

  /** No contributed job consumes from two producers whose artifacts share a name. */
  ghost predicate NoArtifactClash(contributed: seq<ContributedJob>, all: seq<ProducedResource>) {
    forall c, p, q | c in contributed && Consumed(c, p, all) && Consumed(c, q, all)
           && p.artifact.name == q.artifact.name ::
      p.jobName == q.jobName
  }

  ghost predicate Consumed(c: ContributedJob, p: ProducedResource, all: seq<ProducedResource>) {
    p in all && SelectedByAny(c.consumes, p, c.name)
  }

  ghost predicate NormalContributed(contributed: seq<ContributedJob>) {
    forall c | c in contributed :: NormalProducts(c)
  }

  /** The jobs whose products c's requests select, in the order of the products. */
  ghost function Producers(c: ContributedJob, all: seq<ProducedResource>): (r: seq<string>)
    ensures forall n :: n in r <==> exists p :: Consumed(c, p, all) && p.jobName == n
  {
    if all == [] then []
    else
      var init, last := all[..|all| - 1], all[|all| - 1];
      assert all == init + [last];
      assert forall p :: Consumed(c, p, all) <==>
             Consumed(c, p, init) || (p == last && SelectedByAny(c.consumes, p, c.name));
      Producers(c, init) + if SelectedByAny(c.consumes, last, c.name) then [last.jobName] else []
  }

  /** The contributed jobs with the dependencies that their declarations and requests amount to. */
  ghost function Awaiting(contributed: seq<ContributedJob>, all: seq<ProducedResource>): (r: seq<Job>)
    ensures |r| == |contributed|
  {
    seq(|contributed|, i requires 0 <= i < |contributed| => AwaitingJob(contributed[i], all))
  }

  ghost function AwaitingJob(c: ContributedJob, all: seq<ProducedResource>): Job {
    NewCommandJob(c).(dependencies := MergeAll(c.dependencies, Producers(c, all)))
  }

  /** What a build must meet, as can be told before it is compiled. */
  ghost predicate Sound(b: Build) {
    var all := AllProduced(b.Base());
    && PlanClosed(b) && DeclaredClosed(b.contributed, b.Base()) && NoArtifactClash(b.contributed, all)
    && NormalContributed(b.contributed) && Acyclic(JobGraph(Awaiting(b.contributed, all)))
  }

  // ------------------------------------------------------------ module jobs

  lemma {:induction false} ModuleJobFrom(plan: JobPlan, apply: bool, requests: seq<ResourceRequest>, order: seq<string>,
                                         job: Job)
    ensures job in ModuleJobs(plan, apply, requests, order) <==>
            exists m :: m in order && job in JobsOf(plan, apply, requests, m)
  {
    if order != [] {
      var init, last := order[..|order| - 1], order[|order| - 1];
      assert order == init + [last];
      ModuleJobFrom(plan, apply, requests, init, job);
      if job in JobsOf(plan, apply, requests, last) {
        assert last in order;
      }
    }
  }

  /** The names of m's jobs. */
  ghost predicate NamesModule(b: Build, m: string, n: string) {
    b.Emits(m) && (n == JobName(PlanJob, m) || (b.apply && n == JobName(ApplyJob, m)))
  }

  lemma NamesOfJobsOf(b: Build, m: string)
    ensures var jobs := JobsOf(b.plan, b.apply, b.Requests(), m);
            && UniqueNames(jobs)
            && forall n :: n in Names(jobs) <==> NamesModule(b, m, n)
  {
    hide PlanResources, PlanOperation, ApplyOperation, DependencyNames, OutputsFor, PlanArtifact, NeedsPlan, Wants;
    var jobs := JobsOf(b.plan, b.apply, b.Requests(), m);
    assert JobName(PlanJob, m)[0] == 'p' && JobName(ApplyJob, m)[0] == 'a';
    forall n ensures n in Names(jobs) <==> NamesModule(b, m, n) {
      if b.Emits(m) {
        assert Names(jobs)[0] == JobName(PlanJob, m);
        if b.apply {
          assert Names(jobs)[1] == JobName(ApplyJob, m);
        }
      }
    }
  }

  ghost predicate NamesSome(b: Build, order: seq<string>, n: string) {
    exists m :: m in order && NamesModule(b, m, n)
  }

  lemma NamesModuleDecides(b: Build, m: string, k: string, n: string)
    requires NamesApart(b.plan, b.contributed) && m in b.plan.subgraph.nodes && k in b.plan.subgraph.nodes
    requires NamesModule(b, m, n) && NamesModule(b, k, n)
    ensures m == k
  {
    assert JobName(PlanJob, m)[0] == 'p' && JobName(ApplyJob, m)[0] == 'a';
    assert JobName(PlanJob, k)[0] == 'p' && JobName(ApplyJob, k)[0] == 'a';
    assert JobName(PlanJob, m)[5..] == Dashed(m) && JobName(PlanJob, k)[5..] == Dashed(k);
    assert JobName(ApplyJob, m)[6..] == Dashed(m) && JobName(ApplyJob, k)[6..] == Dashed(k);
  }

  lemma {:induction false} ModuleNames(b: Build, order: seq<string>)
    requires NamesApart(b.plan, b.contributed) && Distinct(order)
    requires forall m | m in order :: m in b.plan.subgraph.nodes
    ensures var jobs := ModuleJobs(b.plan, b.apply, b.Requests(), order);
            UniqueNames(jobs) && forall n :: n in Names(jobs) <==> NamesSome(b, order, n)
  {
    if order != [] {
      var init, last := order[..|order| - 1], order[|order| - 1];
      assert order == init + [last];
      assert last !in init;
      ModuleNames(b, init);
      NamesOfJobsOf(b, last);
      var before, added := ModuleJobs(b.plan, b.apply, b.Requests(), init), JobsOf(b.plan, b.apply, b.Requests(), last);
      NamesConcat(before, added);
      forall n | n in Names(added) ensures n !in Names(before) {
        if NamesSome(b, init, n) {
          var m :| m in init && NamesModule(b, m, n);
          NamesModuleDecides(b, m, last, n);
        }
      }
      DistinctConcat(Names(before), Names(added));
      forall n ensures NamesSome(b, order, n) <==> NamesSome(b, init, n) || NamesModule(b, last, n) {
        if NamesSome(b, init, n) {
          var m :| m in init && NamesModule(b, m, n);
          assert m in order;
        }
        assert last in order;
      }
    }
  }

  /** Each job's dependencies are names of jobs earlier in the list. */
  ghost predicate InOrder(jobs: seq<Job>) {
    forall i, d | 0 <= i < |jobs| && d in jobs[i].dependencies :: d in Names(jobs[..i])
  }

  lemma DependencyNamesAre(plan: JobPlan, m: string, kind: JobKind, n: string)
    ensures n in DependencyNames(plan, m, kind) <==>
            exists d :: Edge(plan.subgraph, m, d) && d in plan.index && n == JobName(kind, d)
  {
    var deps := FilterIn(Succ(plan.subgraph, m), plan.index);
    if d :| Edge(plan.subgraph, m, d) && d in plan.index && n == JobName(kind, d) {
      assert d in deps;
      var i :| 0 <= i < |deps| && deps[i] == d;
      assert DependencyNames(plan, m, kind)[i] == n;
    }
    if n in DependencyNames(plan, m, kind) {
      var i :| 0 <= i < |deps| && DependencyNames(plan, m, kind)[i] == n;
      assert deps[i] in deps;
      assert Edge(plan.subgraph, m, deps[i]);
    }
  }

  lemma DependencyIsEmitted(b: Build, order: seq<string>, m: string, kind: JobKind, n: string)
    requires PlanClosed(b) && m in b.plan.subgraph.nodes && b.Emits(m) && n in DependencyNames(b.plan, m, kind)
    requires forall d | Edge(b.plan.subgraph, m, d) :: d in order
    requires kind == if b.apply then ApplyJob else PlanJob
    ensures NamesSome(b, order, n)
  {
    hide DependencyNames, JobName;
    DependencyNamesAre(b.plan, m, kind, n);
    var d :| Edge(b.plan.subgraph, m, d) && d in b.plan.index && n == JobName(kind, d);
    assert b.Emits(d);
    assert NamesModule(b, d, n);
  }

  /** m's jobs depend on jobs of m's dependencies, which come earlier, and on one another in order. */
  lemma JobsOfInOrder(b: Build, order: seq<string>, m: string)
    requires Setup(b) && PlanClosed(b) && m in b.plan.subgraph.nodes && Distinct(order)
    requires forall k | k in order :: k in b.plan.subgraph.nodes
    requires forall d | Edge(b.plan.subgraph, m, d) :: d in order
    ensures var before := ModuleJobs(b.plan, b.apply, b.Requests(), order);
            var added := JobsOf(b.plan, b.apply, b.Requests(), m);
            forall i, d | 0 <= i < |added| && d in added[i].dependencies :: d in Names(before + added[..i])
  {
    var before := ModuleJobs(b.plan, b.apply, b.Requests(), order);
    var added := JobsOf(b.plan, b.apply, b.Requests(), m);
    ModuleNames(b, order);
    hide ModuleJobs, NamesSome, PlanClosed, Setup, AllRequests, NeedsPlan, PlanResources, DependencyNames;
    forall i, n | 0 <= i < |added| && n in added[i].dependencies ensures n in Names(before + added[..i]) {
      NamesConcat(before, added[..i]);
      var kind := if b.apply then ApplyJob else PlanJob;
      if i == 1 && n == JobName(PlanJob, m) {
        assert Names(added[..1])[0] == n;
      } else {
        assert n in DependencyNames(b.plan, m, kind);
        DependencyIsEmitted(b, order, m, kind, n);
      }
    }
  }

  lemma InOrderConcat(a: seq<Job>, c: seq<Job>)
    requires InOrder(a) && forall i, d | 0 <= i < |c| && d in c[i].dependencies :: d in Names(a + c[..i])
    ensures InOrder(a + c)
  {
    var whole := a + c;
    forall i, d | 0 <= i < |whole| && d in whole[i].dependencies ensures d in Names(whole[..i]) {
      if i < |a| {
        assert whole[..i] == a[..i];
      } else {
        assert whole[..i] == a + c[..i - |a|];
        assert whole[i] == c[i - |a|];
      }
    }
  }

  /** The module jobs come out in an order in which every dependency is an earlier job. */
  lemma {:induction false} ModuleJobsInOrder(b: Build, order: seq<string>)
    requires Setup(b) && PlanClosed(b) && Distinct(order) && DependenciesFirst(b.plan.subgraph, order)
    requires forall m | m in order :: m in b.plan.subgraph.nodes
    ensures InOrder(ModuleJobs(b.plan, b.apply, b.Requests(), order))
  {
    if order != [] {
      var init, last := order[..|order| - 1], order[|order| - 1];
      assert order == init + [last];
      PrefixOrdered(b.plan.subgraph, order, |init|);
      ModuleJobsInOrder(b, init);
      JobsOfInOrder(b, init, last);
      InOrderConcat(ModuleJobs(b.plan, b.apply, b.Requests(), init), JobsOf(b.plan, b.apply, b.Requests(), last));
    }
  }

  // ------------------------------------------------------------ the whole pipeline

  lemma BaseNames(b: Build)
    requires Setup(b)
    ensures UniqueNames(b.Base())
    ensures forall n :: n in Names(b.Base()) <==> n in Names(b.ModulePart()) || n in Names(CommandJobs(b.contributed))
  {
    hide ContributedOk, ModuleJobs, ModulePathOk, NewCommandJob;
    CommandNamesDistinct(b.contributed);
    OrderInNodes(b.plan);
    ModuleNames(b, b.plan.moduleOrder);
    var commands := CommandJobs(b.contributed);
    NamesConcat(b.ModulePart(), commands);
    forall n | n in Names(commands) ensures n !in Names(b.ModulePart()) {
      var i :| 0 <= i < |commands| && Names(commands)[i] == n;
      assert n == b.contributed[i].name && b.contributed[i] in b.contributed;
      assert !NamesSome(b, b.plan.moduleOrder, n);
    }
    DistinctConcat(Names(b.ModulePart()), Names(commands));
  }

  lemma CommandNamesDistinct(contributed: seq<ContributedJob>)
    requires forall i, j | 0 <= i < j < |contributed| :: contributed[i].name != contributed[j].name
    ensures UniqueNames(CommandJobs(contributed))
    ensures forall i | 0 <= i < |contributed| :: Names(CommandJobs(contributed))[i] == contributed[i].name
  {
  }

  lemma OrderInNodes(plan: JobPlan)
    requires GraphPlanned(plan)
    ensures forall m :: m in plan.moduleOrder <==> m in plan.subgraph.nodes
  {
    assert forall m :: m in plan.moduleOrder <==> m in Elements(plan.moduleOrder);
  }

  lemma {:induction false} SameProducts(a: seq<Job>, c: seq<Job>)
    requires |a| == |c|
    requires forall i | 0 <= i < |a| ::
             a[i].name == c[i].name && a[i].produces == c[i].produces && a[i].outputArtifact == c[i].outputArtifact
    ensures AllProduced(a) == AllProduced(c) && Names(a) == Names(c)
  {
    if a != [] {
      SameProducts(a[..|a| - 1], c[..|c| - 1]);
      assert ProducedBy(a[|a| - 1]) == ProducedBy(c[|c| - 1]);
    }
  }

  lemma ResolvesKeeps(before: Job, after: Job, requests: seq<ResourceRequest>, all: seq<ProducedResource>)
    requires Resolves(before, after, requests, all)
    ensures before.name == after.name && before.produces == after.produces
            && before.outputArtifact == after.outputArtifact
  {
  }

  ghost predicate ResolvedAt(part: seq<Job>, contributed: seq<ContributedJob>, jobs: seq<Job>, i: int)
    requires 0 <= i < |contributed| && |part| + i < |jobs|
  {
    Resolves(NewCommandJob(contributed[i]), jobs[|part| + i], contributed[i].consumes, AllProduced(jobs))
  }

  /** jobs is part followed by the contributed jobs, resolved against the products of all of them. */
  ghost predicate Assembled(part: seq<Job>, contributed: seq<ContributedJob>, jobs: seq<Job>) {
    && |jobs| == |part| + |contributed| && jobs[..|part|] == part
    && UniqueNames(jobs) && Indexable(AllProduced(jobs))
    && forall i {:trigger ResolvedAt(part, contributed, jobs, i)} | 0 <= i < |contributed| ::
        ResolvedAt(part, contributed, jobs, i)
  }

  lemma TailKeeps(part: seq<Job>, contributed: seq<ContributedJob>, jobs: seq<Job>, all: seq<ProducedResource>)
    requires |jobs| == |part| + |contributed| && jobs[..|part|] == part
    requires forall i | 0 <= i < |contributed| ::
             Resolves(NewCommandJob(contributed[i]), jobs[|part| + i], contributed[i].consumes, all)
    ensures var base := part + CommandJobs(contributed);
            forall k | 0 <= k < |base| ::
              && base[k].name == jobs[k].name && base[k].produces == jobs[k].produces
              && base[k].outputArtifact == jobs[k].outputArtifact
  {
    hide Resolves, NewCommandJob;
    var base := part + CommandJobs(contributed);
    forall k | 0 <= k < |base|
      ensures base[k].name == jobs[k].name && base[k].produces == jobs[k].produces
              && base[k].outputArtifact == jobs[k].outputArtifact
    {
      if k < |part| {
        assert jobs[..|part|][k] == part[k] == jobs[k];
      } else {
        var i := k - |part|;
        assert base[k] == NewCommandJob(contributed[i]) && jobs[|part| + i] == jobs[k];
        ResolvesKeeps(base[k], jobs[k], contributed[i].consumes, all);
      }
    }
  }

  lemma NthResolved(part: seq<Job>, contributed: seq<ContributedJob>, jobs: seq<Job>, i: nat)
    requires ResolvedTail(part + CommandJobs(contributed), jobs, contributed, |contributed|) && i < |contributed|
    ensures |jobs| == |part| + |contributed|
    ensures Resolves(NewCommandJob(contributed[i]), jobs[|part| + i], contributed[i].consumes,
                     AllProduced(part + CommandJobs(contributed)))
  {
    hide Resolves, AllProduced, NewCommandJob, ResolvedTail;
    CommandAt(part, contributed, i);
    TailHolds(part + CommandJobs(contributed), jobs, contributed, i);
  }

  lemma CommandAt(part: seq<Job>, contributed: seq<ContributedJob>, i: nat)
    requires i < |contributed|
    ensures var base := part + CommandJobs(contributed);
            |base| - |contributed| == |part| && base[|part| + i] == NewCommandJob(contributed[i])
  {
    hide NewCommandJob;
  }

  lemma TailPrefix(part: seq<Job>, contributed: seq<ContributedJob>, jobs: seq<Job>)
    requires ResolvedTail(part + CommandJobs(contributed), jobs, contributed, |contributed|)
    ensures |jobs| == |part| + |contributed| && jobs[..|part|] == part
  {
    hide Resolves, AllProduced, ResolvedNth;
    assert (part + CommandJobs(contributed))[..|part|] == part;
  }

  lemma ResolutionKeepsProducts(part: seq<Job>, contributed: seq<ContributedJob>, jobs: seq<Job>)
    requires ResolvedTail(part + CommandJobs(contributed), jobs, contributed, |contributed|)
    ensures |jobs| == |part| + |contributed| && jobs[..|part|] == part
    ensures AllProduced(jobs) == AllProduced(part + CommandJobs(contributed))
    ensures Names(jobs) == Names(part + CommandJobs(contributed))
    ensures forall i | 0 <= i < |contributed| :: ResolvedAt(part, contributed, jobs, i)
  {
    hide Resolves, AllProduced, NewCommandJob, Names, ResolvedTail;
    TailPrefix(part, contributed, jobs);
    var base, start := part + CommandJobs(contributed), |part|;
    forall i | 0 <= i < |contributed|
      ensures Resolves(NewCommandJob(contributed[i]), jobs[start + i], contributed[i].consumes, AllProduced(base))
    {
      NthResolved(part, contributed, jobs, i);
    }
    TailKeeps(part, contributed, jobs, AllProduced(base));
    SameProducts(base, jobs);
  }

  lemma CompiledIsAssembled(b: Build, jobs: seq<Job>)
    requires Setup(b) && Compiled(b, jobs)
    ensures Assembled(b.ModulePart(), b.contributed, jobs)
    ensures Names(jobs) == Names(b.Base()) && AllProduced(jobs) == AllProduced(b.Base())
  {
    hide Setup, ModuleJobs, AllProduced, Indexable;
    ResolutionKeepsProducts(b.ModulePart(), b.contributed, jobs);
    BaseNames(b);
  }

  // ------------------------------------------------------------ jobs on their own

  lemma ModuleJobShape(b: Build, job: Job) returns (m: string)
    requires GraphPlanned(b.plan) && job in b.ModulePart()
    ensures m in b.plan.subgraph.nodes && b.Emits(m) && ModulePathOk(m)
    ensures job in JobsOf(b.plan, b.apply, b.Requests(), m)
    ensures PlanJobOf(b.plan, b.apply, b.Requests(), m) in b.ModulePart()
    ensures job == PlanJobOf(b.plan, b.apply, b.Requests(), m)
            || (b.apply && job == ApplyJobOf(b.plan, b.Requests(), m))
  {
    hide PlanJobOf, ApplyJobOf, ModulePathOk, NeedsPlan;
    ModuleJobFrom(b.plan, b.apply, b.Requests(), b.plan.moduleOrder, job);
    m :| m in b.plan.moduleOrder && job in JobsOf(b.plan, b.apply, b.Requests(), m);
    OrderInNodes(b.plan);
    PlanJobEmitted(b, m);
  }

  lemma PlanJobEmitted(b: Build, m: string)
    requires m in b.plan.moduleOrder && b.Emits(m)
    ensures PlanJobOf(b.plan, b.apply, b.Requests(), m) in b.ModulePart()
  {
    hide PlanJobOf, ApplyJobOf, NeedsPlan;
    var planJob := PlanJobOf(b.plan, b.apply, b.Requests(), m);
    assert JobsOf(b.plan, b.apply, b.Requests(), m)[0] == planJob;
    ModuleJobFrom(b.plan, b.apply, b.Requests(), b.plan.moduleOrder, planJob);
  }

  lemma ModuleJobFine(b: Build, job: Job)
    requires GraphPlanned(b.plan) && job in b.ModulePart()
    ensures JobFine(job)
  {
    var m := ModuleJobShape(b, job);
    hide ModuleJobs, JobsOf, JobOk, GraphPlanned;
    var deps := DependencyNames(b.plan, m, if b.apply then ApplyJob else PlanJob);
    PlanJobProducts(m, deps, OutputsFor(b.Requests(), m));
    if job != PlanJobOf(b.plan, b.apply, b.Requests(), m) {
      ApplyJobConsumesPlan(m, DependencyNames(b.plan, m, ApplyJob), PlanJobOf(b.plan, true, b.Requests(), m), deps,
                           OutputsFor(b.Requests(), m));
    }
  }

  ghost predicate PartFine(part: seq<Job>) {
    forall job | job in part :: JobFine(job)
  }

  ghost predicate ContributedFine(contributed: seq<ContributedJob>) {
    forall c | c in contributed :: JobFine(NewCommandJob(c))
  }

  lemma SetupFine(b: Build)
    requires Setup(b) && NormalContributed(b.contributed)
    ensures PartFine(b.ModulePart()) && ContributedFine(b.contributed)
  {
    hide JobFine, ModuleJobs, GraphPlanned, NamesApart, NormalProducts;
    forall job | job in b.ModulePart() ensures JobFine(job) {
      ModuleJobFine(b, job);
    }
    forall c | c in b.contributed ensures JobFine(NewCommandJob(c)) {
      CommandJobProducts(c);
    }
  }

  ghost predicate ProductFine(p: ProducedResource) {
    ResourceOk(p.spec) && ArtifactOk(p.artifact) && p.artifact.Configured() && p.jobName != ""
  }

  lemma ProductOfFine(job: Job, p: ProducedResource)
    requires JobFine(job) && Publishable(p) && p.spec in job.produces && p.jobName == job.name
             && p.artifact == job.outputArtifact
    ensures ProductFine(p)
  {
    hide ResourceOk, ArtifactOk, InputOk, OperationOk;
  }

  lemma JobAt(part: seq<Job>, contributed: seq<ContributedJob>, jobs: seq<Job>, job: Job) returns (i: nat)
    requires Assembled(part, contributed, jobs) && job in jobs && job !in part
    ensures i < |contributed| && |part| + i < |jobs| && jobs[|part| + i] == job && contributed[i] in contributed
    ensures ResolvedAt(part, contributed, jobs, i)
  {
    hide ResolvedAt, AllProduced, Indexable;
    assert forall k | 0 <= k < |part| :: jobs[..|part|][k] == part[k] == jobs[k];
    var k :| 0 <= k < |jobs| && jobs[k] == job;
    i := k - |part|;
  }

  lemma ProductOk(part: seq<Job>, contributed: seq<ContributedJob>, jobs: seq<Job>, p: ProducedResource)
    requires Assembled(part, contributed, jobs) && PartFine(part) && ContributedFine(contributed)
             && p in AllProduced(jobs)
    ensures ProductFine(p)
  {
    hide JobFine, Resolves, ProductFine;
    ProducedComesFromJob(jobs, p);
    assert Publishable(p);
    var job :| job in jobs && p.spec in job.produces && p.jobName == job.name && p.artifact == job.outputArtifact;
    if job in part {
      ProductOfFine(job, p);
    } else {
      var i := JobAt(part, contributed, jobs, job);
      ResolvesKeeps(NewCommandJob(contributed[i]), job, contributed[i].consumes, AllProduced(jobs));
      ProductOfFine(NewCommandJob(contributed[i]), p);
    }
  }

  /** What the inputs of a resolved contributed job come from. */
  lemma ContributedShape(part: seq<Job>, contributed: seq<ContributedJob>, jobs: seq<Job>, i: nat)
    returns (resources: seq<ResolvedResource>, deps: seq<string>)
    requires Assembled(part, contributed, jobs) && i < |contributed|
    ensures ResolvesWith(NewCommandJob(contributed[i]), jobs[|part| + i], contributed[i].consumes, AllProduced(jobs),
                         resources, deps)
    ensures forall k | 0 <= k < |resources| :: Consumed(contributed[i], resources[k].resource, AllProduced(jobs))
    ensures forall p :: Consumed(contributed[i], p, AllProduced(jobs)) ==> Listed(resources, p)
  {
    hide AllProduced, Indexable, SelectedByAny, InputsFor;
    var before, after := NewCommandJob(contributed[i]), jobs[|part| + i];
    assert ResolvedAt(part, contributed, jobs, i);
    resources, deps :| ResolvesWith(before, after, contributed[i].consumes, AllProduced(jobs), resources, deps);
    forall k | 0 <= k < |resources| ensures Consumed(contributed[i], resources[k].resource, AllProduced(jobs)) {
      assert Listed(resources, resources[k].resource);
    }
  }

  lemma ResolvedJobFine(before: Job, after: Job, requests: seq<ResourceRequest>, all: seq<ProducedResource>,
                        resources: seq<ResolvedResource>, deps: seq<string>)
    requires ResolvesWith(before, after, requests, all, resources, deps) && JobFine(before)
    requires forall k | 0 <= k < |resources| :: ProductFine(resources[k].resource)
    ensures JobFine(after)
  {
    hide ResourceOk, ArtifactOk, ResolvedAre;
    forall spec | spec in after.consumes ensures ResourceOk(spec) {
      var k :| 0 <= k < |resources| && Specs(resources)[k] == spec;
      assert ProductFine(resources[k].resource);
    }
    forall input | input in after.inputArtifacts ensures InputOk(input) {
      assert ArtifactFor(input, resources);
      var k :| 0 <= k < |resources| && input.artifact == resources[k].resource.artifact
               && input.producerJob == resources[k].resource.jobName;
      assert ProductFine(resources[k].resource);
    }
  }

  lemma EveryJobFine(part: seq<Job>, contributed: seq<ContributedJob>, jobs: seq<Job>, job: Job)
    requires Assembled(part, contributed, jobs) && PartFine(part) && ContributedFine(contributed) && job in jobs
    ensures JobFine(job)
  {
    hide JobFine, ResolvesWith, ProductFine, Assembled;
    if job !in part {
      var i := JobAt(part, contributed, jobs, job);
      var resources, deps := ContributedShape(part, contributed, jobs, i);
      forall k | 0 <= k < |resources| ensures ProductFine(resources[k].resource) {
        assert Consumed(contributed[i], resources[k].resource, AllProduced(jobs));
        ProductOk(part, contributed, jobs, resources[k].resource);
      }
      ResolvedJobFine(NewCommandJob(contributed[i]), job, contributed[i].consumes, AllProduced(jobs), resources, deps);
    }
  }

  // ------------------------------------------------------------ jobs among one another

  ghost predicate AllSupplied(jobs: seq<Job>, job: Job) {
    forall c | c in job.consumes :: Supplied(jobs, job, c)
  }

  lemma EarlierNames(part: seq<Job>, jobs: seq<Job>, job: Job)
    requires InOrder(part) && |part| <= |jobs| && jobs[..|part|] == part && job in part
    ensures forall d | d in job.dependencies :: d in Names(jobs)
  {
    var i :| 0 <= i < |part| && part[i] == job;
    forall d | d in job.dependencies ensures d in Names(jobs) {
      assert d in Names(part[..i]);
      var k :| 0 <= k < i && Names(part[..i])[k] == d;
      assert jobs[..|part|][k] == part[k];
      assert Names(jobs)[k] == d;
    }
  }

  lemma ModuleJobEdges(b: Build, jobs: seq<Job>, job: Job)
    requires Setup(b) && PlanClosed(b) && job in b.ModulePart()
    requires |b.ModulePart()| <= |jobs| && jobs[..|b.ModulePart()|] == b.ModulePart()
    ensures EdgesOk(jobs, job) && AllSupplied(jobs, job)
  {
    OrderInNodes(b.plan);
    ModuleJobsInOrder(b, b.plan.moduleOrder);
    EarlierNames(b.ModulePart(), jobs, job);
    var m := ModuleJobShape(b, job);
    hide ModuleJobs, JobsOf, Setup, PlanClosed, InOrder, JobOk;
    var planJob := PlanJobOf(b.plan, b.apply, b.Requests(), m);
    InPrefix(b.ModulePart(), jobs, planJob);
    if job != planJob {
      var deps := DependencyNames(b.plan, m, ApplyJob);
      ApplyJobConsumesPlan(m, deps, planJob, deps, OutputsFor(b.Requests(), m));
      ApplyEdges(jobs, job, planJob);
    }
  }

  lemma InPrefix(part: seq<Job>, jobs: seq<Job>, job: Job)
    requires |part| <= |jobs| && jobs[..|part|] == part && job in part
    ensures job in jobs
  {
    assert job in jobs[..|part|];
  }

  lemma ApplyEdges(jobs: seq<Job>, job: Job, planJob: Job)
    requires planJob in jobs && planJob.name in job.dependencies && planJob.produces != []
    requires forall d | d in job.dependencies :: d in Names(jobs)
    requires job.inputArtifacts == [InputArtifact(planJob.outputArtifact, planJob.name, false)]
    requires RestoredFrom(job, planJob) && job.consumes == [planJob.produces[0]]
    ensures EdgesOk(jobs, job) && AllSupplied(jobs, job)
  {
    assert planJob.produces[0] in planJob.produces;
  }

  lemma ProducerNamed(jobs: seq<Job>, p: ProducedResource) returns (job: Job)
    requires p in AllProduced(jobs)
    ensures p.jobName in Names(jobs)
    ensures job in jobs && job.name == p.jobName && job.outputArtifact == p.artifact && p.spec in job.produces
  {
    ProducedComesFromJob(jobs, p);
    job :| job in jobs && p.spec in job.produces && p.jobName == job.name && p.artifact == job.outputArtifact;
    var k :| 0 <= k < |jobs| && jobs[k] == job;
    assert Names(jobs)[k] == p.jobName;
  }

  /** What a contributed job depends on exists, and what it restores is what its producers publish. */
  lemma ContributedEdges(part: seq<Job>, contributed: seq<ContributedJob>, jobs: seq<Job>, i: nat)
    requires Assembled(part, contributed, jobs) && PartFine(part) && ContributedFine(contributed)
    requires DeclaredClosed(contributed, jobs) && i < |contributed|
    ensures EdgesOk(jobs, jobs[|part| + i])
  {
    var resources, deps := ContributedShape(part, contributed, jobs, i);
    hide ResolvedAre, PartFine, ContributedFine, SelectedByAny, AllProduced, Resolves;
    var job := jobs[|part| + i];
    forall d | d in job.dependencies ensures d in Names(jobs) {
      if d in contributed[i].dependencies {
        assert contributed[i] in contributed;
      } else {
        assert Produces(resources, d);
        var k :| 0 <= k < |resources| && resources[k].resource.jobName == d;
        var producer := ProducerNamed(jobs, resources[k].resource);
      }
    }
    forall input | input in job.inputArtifacts ensures Restores(jobs, job, input) {
      assert ArtifactFor(input, resources);
      var k :| 0 <= k < |resources| && input.artifact == resources[k].resource.artifact
               && input.producerJob == resources[k].resource.jobName;
      var producer := ProducerNamed(jobs, resources[k].resource);
      ProductOk(part, contributed, jobs, resources[k].resource);
      assert Produces(resources, input.producerJob);
    }
  }

  lemma ArtifactNamesProducer(jobs: seq<Job>, p: ProducedResource, q: ProducedResource)
    requires UniqueNames(jobs) && p in AllProduced(jobs) && q in AllProduced(jobs) && p.jobName == q.jobName
    ensures p.artifact == q.artifact
  {
    var x := ProducerNamed(jobs, p);
    var y := ProducerNamed(jobs, q);
    NameDecides(jobs, x, y);
  }

  /** Every resource a contributed job consumes comes with its producer's artifact. */
  lemma ContributedSupplied(part: seq<Job>, contributed: seq<ContributedJob>, jobs: seq<Job>, i: nat)
    requires Assembled(part, contributed, jobs) && PartFine(part) && ContributedFine(contributed)
    requires NoArtifactClash(contributed, AllProduced(jobs)) && i < |contributed|
    ensures AllSupplied(jobs, jobs[|part| + i])
  {
    var resources, deps := ContributedShape(part, contributed, jobs, i);
    hide ResolvedAre, PartFine, ContributedFine, SelectedByAny, AllProduced, Resolves, Indexable;
    var job := jobs[|part| + i];
    forall c | c in job.consumes ensures Supplied(jobs, job, c) {
      var k :| 0 <= k < |resources| && Specs(resources)[k] == c;
      var p := resources[k].resource;
      ProductOk(part, contributed, jobs, p);
      assert Produces(resources, p.jobName) && CarriedBy(job.inputArtifacts, p.artifact.name);
      var input :| input in job.inputArtifacts && input.artifact.name == p.artifact.name;
      assert ArtifactFor(input, resources);
      var l :| 0 <= l < |resources| && input.artifact == resources[l].resource.artifact
               && input.producerJob == resources[l].resource.jobName;
      assert contributed[i] in contributed;
      assert Consumed(contributed[i], p, AllProduced(jobs))
             && Consumed(contributed[i], resources[l].resource, AllProduced(jobs));
      ArtifactNamesProducer(jobs, p, resources[l].resource);
      var producer := ProducerNamed(jobs, p);
      assert RestoredFrom(job, producer);
    }
  }

  // ------------------------------------------------------------ cycles

  lemma PartNamesOrdered(part: seq<Job>, jobs: seq<Job>)
    requires InOrder(part) && |part| <= |jobs| && jobs[..|part|] == part && UniqueNames(jobs)
    ensures DependenciesFirst(JobGraph(jobs), Names(part))
  {
    forall i, v | 0 <= i < |Names(part)| && Edge(JobGraph(jobs), Names(part)[i], v) ensures v in Names(part)[..i] {
      assert jobs[..|part|][i] == part[i];
      JobGraphEdges(jobs, i);
      assert v in Names(part[..i]);
      assert Names(part[..i]) == Names(part)[..i];
    }
  }

  lemma TailGraph(jobs: seq<Job>, start: nat, u: string)
    requires UniqueNames(jobs) && start <= |jobs| && u in Names(jobs[start..])
    ensures Succ(JobGraph(jobs[start..]), u) == Succ(JobGraph(jobs), u)
  {
    hide JobGraph;
    TailUnique(jobs, start);
    var tail := jobs[start..];
    var i :| 0 <= i < |tail| && Names(tail)[i] == u;
    assert tail[i] == jobs[start + i];
    JobGraphEdges(tail, i);
    JobGraphEdges(jobs, start + i);
  }

  lemma TailUnique(jobs: seq<Job>, start: nat)
    requires UniqueNames(jobs) && start <= |jobs|
    ensures UniqueNames(jobs[start..])
  {
    assert Names(jobs[start..]) == Names(jobs)[start..];
  }

  lemma NodeOnCycle(g: Graph, p: seq<string>, u: string, i: nat)
    requires Path(g, p, u, u) && i < |p|
    ensures Reaches(g, p[i], p[i]) && SeesCycle(g, p[i])
  {
    if 0 < i < |p| - 1 {
      WalkReaches(g, p, i, |p| - 1);
      WalkReaches(g, p, 0, i);
      ReachesTransitive(g, p[i], u, p[i]);
    } else {
      WalkReaches(g, p, 0, |p| - 1);
    }
    assert ReachesOrIs(g, p[i], p[i]);
  }

  lemma OutsidePart(jobs: seq<Job>, start: nat, n: string)
    requires start <= |jobs| && n in Names(jobs) && n !in Names(jobs[..start])
    ensures n in Names(jobs[start..])
  {
    assert forall k | 0 <= k < start :: Names(jobs[..start])[k] == Names(jobs)[k];
    var k :| 0 <= k < |jobs| && Names(jobs)[k] == n;
    assert Names(jobs[start..])[k - start] == n;
  }

  /** A cycle can only run through the jobs after an ordered prefix. */
  lemma CycleInTail(part: seq<Job>, jobs: seq<Job>, u: string)
    requires InOrder(part) && |part| <= |jobs| && jobs[..|part|] == part && UniqueNames(jobs) && ClosedJobs(jobs)
    requires Reaches(JobGraph(jobs), u, u)
    ensures Reaches(JobGraph(jobs[|part|..]), u, u)
  {
    hide InOrder, UniqueNames;
    var g, h := JobGraph(jobs), JobGraph(jobs[|part|..]);
    ClosedJobsClosedGraph(jobs);
    PartNamesOrdered(part, jobs);
    var p :| Path(g, p, u, u);
    forall i, j | 0 <= i < |p| && 0 <= j < |p| && j == i + 1 ensures Edge(h, p[i], p[j]) {
      assert Edge(g, p[i], p[j]);
      NodeOnCycle(g, p, u, i);
      OnlyTailOnCycle(g, part, p[i]);
      assert p[i] in Names(jobs);
      OutsidePart(jobs, |part|, p[i]);
      TailGraph(jobs, |part|, p[i]);
    }
    assert Path(h, p, u, u);
  }

  lemma OnlyTailOnCycle(g: Graph, part: seq<Job>, n: string)
    requires DependenciesFirst(g, Names(part)) && SeesCycle(g, n)
    ensures n !in Names(part)
  {
    if n in Names(part) {
      OrderedHasNoCycle(g, Names(part), n);
    }
  }

  lemma TailAcyclic(jobs: seq<Job>, start: nat)
    requires UniqueNames(jobs) && start <= |jobs| && Acyclic(JobGraph(jobs))
    ensures Acyclic(JobGraph(jobs[start..]))
  {
    var g, h := JobGraph(jobs), JobGraph(jobs[start..]);
    forall x, y | Edge(h, x, y) ensures Edge(g, x, y) {
      TailGraph(jobs, start, x);
    }
    forall u ensures !Reaches(h, u, u) {
      if Reaches(h, u, u) {
        ReachesMonotone(h, g, u, u);
      }
    }
  }

  // ------------------------------------------------------------ soundness

  lemma FineSupplied(jobs: seq<Job>, job: Job)
    requires JobFine(job)
    ensures JobOk(job)
    ensures AllSupplied(jobs, job) ==> ResourcesOk(jobs, job)
  {
    hide JobOk, Supplied;
  }

  lemma PipelineJobs(b: Build, jobs: seq<Job>, job: Job)
    requires Setup(b) && Compiled(b, jobs) && PlanClosed(b) && job in jobs && NormalContributed(b.contributed)
    requires DeclaredClosed(b.contributed, b.Base()) && NoArtifactClash(b.contributed, AllProduced(b.Base()))
    ensures JobOk(job) && EdgesOk(jobs, job) && ResourcesOk(jobs, job)
  {
    CompiledIsAssembled(b, jobs);
    SetupFine(b);
    DeclaredByNames(b.contributed, b.Base(), jobs);
    hide Setup, Compiled, PlanClosed, JobOk, EdgesOk, NoArtifactClash, PartFine, ContributedFine, Supplied;
    hide ModuleJobs, AllProduced, ResolvedAt, DeclaredClosed, Indexable, UniqueNames, AllSupplied;
    var part := b.ModulePart();
    EveryJobFine(part, b.contributed, jobs, job);
    FineSupplied(jobs, job);
    AssembledLength(part, b.contributed, jobs);
    if job in part {
      hide Assembled;
      ModuleJobEdges(b, jobs, job);
    } else {
      hide Assembled;
      var i := JobAt(part, b.contributed, jobs, job);
      ContributedEdges(part, b.contributed, jobs, i);
      ContributedSupplied(part, b.contributed, jobs, i);
    }
  }

  lemma WellFormedFromParts(part: seq<Job>, jobs: seq<Job>)
    requires UniqueNames(jobs) && Indexable(AllProduced(jobs))
    requires forall job | job in jobs :: JobOk(job) && EdgesOk(jobs, job) && ResourcesOk(jobs, job)
    requires InOrder(part) && |part| <= |jobs| && jobs[..|part|] == part && Acyclic(JobGraph(jobs[|part|..]))
    ensures WellFormed(jobs)
  {
    hide JobOk, ResourcesOk, InOrder, Indexable, AllProduced, UniqueNames, JobGraph, Reaches;
    forall i, d | 0 <= i < |jobs| && d in jobs[i].dependencies ensures d in Names(jobs) {
      assert EdgesOk(jobs, jobs[i]);
    }
    forall u ensures !Reaches(JobGraph(jobs), u, u) {
      if Reaches(JobGraph(jobs), u, u) {
        CycleInTail(part, jobs, u);
      }
    }
  }

  lemma SoundIsWellFormed(b: Build, jobs: seq<Job>)
    requires Setup(b) && Compiled(b, jobs) && Sound(b)
    ensures WellFormed(jobs)
  {
    CompiledIsAssembled(b, jobs);
    PartInOrder(b);
    AwaitingIsTail(b.ModulePart(), b.contributed, jobs);
    AssembledLength(b.ModulePart(), b.contributed, jobs);
    hide Setup, Compiled, PlanClosed, NoArtifactClash, DeclaredClosed, JobOk, EdgesOk, ResourcesOk, InOrder, Indexable;
    hide AllProduced, ModuleJobs, ResolvedAt, WellFormed, NormalContributed, Awaiting, Acyclic, JobGraph;
    forall job | job in jobs ensures JobOk(job) && EdgesOk(jobs, job) && ResourcesOk(jobs, job) {
      PipelineJobs(b, jobs, job);
    }
    WellFormedFromParts(b.ModulePart(), jobs);
  }

  lemma PartInOrder(b: Build)
    requires Setup(b) && PlanClosed(b)
    ensures InOrder(b.ModulePart())
  {
    OrderInNodes(b.plan);
    ModuleJobsInOrder(b, b.plan.moduleOrder);
  }

  lemma WellFormedPlanClosed(b: Build, jobs: seq<Job>)
    requires Setup(b) && Compiled(b, jobs) && WellFormed(jobs)
    ensures PlanClosed(b)
  {
    CompiledIsAssembled(b, jobs);
    OrderInNodes(b.plan);
    hide Compiled, WellFormed, ModuleJobs, JobsOf, Assembled;
    if !b.apply {
      forall m, d | m in b.plan.subgraph.nodes && b.Emits(m) && Edge(b.plan.subgraph, m, d) && d in b.plan.index
        ensures b.Emits(d)
      {
        PlanDependencyListed(b, jobs, m, d);
        assert d in b.plan.subgraph.nodes;
        DependencyEmitted(b, d);
      }
    }
  }

  lemma PlanDependencyListed(b: Build, jobs: seq<Job>, m: string, d: string)
    requires Setup(b) && Compiled(b, jobs) && WellFormed(jobs) && !b.apply
    requires m in b.plan.moduleOrder && b.Emits(m) && Edge(b.plan.subgraph, m, d) && d in b.plan.index
    ensures JobName(PlanJob, d) in Names(b.Base())
  {
    CompiledIsAssembled(b, jobs);
    PlanJobEmitted(b, m);
    hide Setup, Compiled, ModuleJobs, JobsOf, NeedsPlan, JobOk, ResourcesOk, Indexable, Acyclic;
    var job := PlanJobOf(b.plan, false, b.Requests(), m);
    InPrefix(b.ModulePart(), jobs, job);
    assert EdgesOk(jobs, job);
    DependencyNamesAre(b.plan, m, PlanJob, JobName(PlanJob, d));
    assert JobName(PlanJob, d) in job.dependencies;
  }

  lemma NotContributed(b: Build, d: string)
    requires NamesApart(b.plan, b.contributed) && d in b.plan.subgraph.nodes
    ensures JobName(PlanJob, d) !in Names(CommandJobs(b.contributed))
  {
    hide NewCommandJob;
    var n := JobName(PlanJob, d);
    forall i | 0 <= i < |b.contributed| ensures Names(CommandJobs(b.contributed))[i] != n {
      assert b.contributed[i] in b.contributed;
      CommandName(b.contributed[i]);
    }
  }

  /** A plan job's name occurs in the pipeline only if that module's plan job was emitted. */
  lemma DependencyEmitted(b: Build, d: string)
    requires Setup(b) && d in b.plan.subgraph.nodes && JobName(PlanJob, d) in Names(b.Base())
    ensures b.Emits(d)
  {
    hide ModuleJobs, Names, NeedsPlan, ContributedOk;
    BaseNames(b);
    OrderInNodes(b.plan);
    hide GraphPlanned;
    ModuleNames(b, b.plan.moduleOrder);
    var n := JobName(PlanJob, d);
    NotContributed(b, d);
    assert NamesSome(b, b.plan.moduleOrder, n);
    hide NamesApart;
    var m :| m in b.plan.moduleOrder && NamesModule(b, m, n);
    assert JobName(ApplyJob, m)[0] == 'a' && n[0] == 'p';
    assert n == JobName(PlanJob, m);
    assert n[5..] == Dashed(d) && JobName(PlanJob, m)[5..] == Dashed(m);
  }

  lemma WellFormedDeclaredClosed(part: seq<Job>, contributed: seq<ContributedJob>, jobs: seq<Job>)
    requires Assembled(part, contributed, jobs) && forall job | job in jobs :: EdgesOk(jobs, job)
    ensures DeclaredClosed(contributed, jobs)
  {
    hide Assembled, ResolvedAre, InputsFor;
    forall c, d | c in contributed && d in c.dependencies ensures d in Names(jobs) {
      var i :| 0 <= i < |contributed| && contributed[i] == c;
      AssembledLength(part, contributed, jobs);
      var resources, deps := ContributedShape(part, contributed, jobs, i);
      assert jobs[|part| + i] in jobs;
      assert EdgesOk(jobs, jobs[|part| + i]);
    }
  }

  lemma AssembledLength(part: seq<Job>, contributed: seq<ContributedJob>, jobs: seq<Job>)
    requires Assembled(part, contributed, jobs)
    ensures |jobs| == |part| + |contributed| && jobs[..|part|] == part
  {
  }

  /** In a well-formed pipeline the producer of each selected resource has an input artifact of its own. */
  lemma RestoredInput(part: seq<Job>, contributed: seq<ContributedJob>, jobs: seq<Job>, i: nat, p: ProducedResource)
    returns (input: InputArtifact)
    requires Assembled(part, contributed, jobs) && i < |contributed| && Consumed(contributed[i], p, AllProduced(jobs))
    requires AllSupplied(jobs, jobs[|part| + i])
    ensures input in jobs[|part| + i].inputArtifacts
    ensures input.producerJob == p.jobName && input.artifact.name == p.artifact.name
  {
    var resources, deps := ContributedShape(part, contributed, jobs, i);
    assert DistinctRefs(AllProduced(jobs));
    AssembledLength(part, contributed, jobs);
    hide ResolvedAre, InputsFor, AllProduced, Resolves, Assembled, Supplied, DistinctRefs;
    var job := jobs[|part| + i];
    assert p.jobName != job.name by {
      var r :| r in contributed[i].consumes && Selects(r, p, contributed[i].name);
      CommandName(contributed[i]);
    }
    assert Listed(resources, p);
    var k :| 0 <= k < |resources| && resources[k].resource == p;
    assert Specs(resources)[k] == p.spec;
    assert p.spec in job.consumes;
    input := SuppliedFrom(jobs, job, p);
  }

  /** The resource p supplies to job is another job's, and comes with that job's artifact. */
  lemma SuppliedFrom(jobs: seq<Job>, job: Job, p: ProducedResource) returns (input: InputArtifact)
    requires p in AllProduced(jobs) && DistinctRefs(AllProduced(jobs)) && p.jobName != job.name
    requires Supplied(jobs, job, p.spec)
    ensures input in job.inputArtifacts && input.producerJob == p.jobName && input.artifact.name == p.artifact.name
  {
    var producer :| producer in jobs && p.spec in producer.produces
                    && (producer.name == job.name
                        || (producer.name in job.dependencies && RestoredFrom(job, producer)));
    var product := ProducedResource(p.spec, producer.name, producer.outputArtifact);
    ProducedComesFromJob(jobs, product);
    SameRefSame(AllProduced(jobs), product, p);
    input :| input in job.inputArtifacts && input.Configured() && input.producerJob == producer.name
             && input.artifact == producer.outputArtifact;
  }

  lemma WellFormedNoClash(part: seq<Job>, contributed: seq<ContributedJob>, jobs: seq<Job>)
    requires Assembled(part, contributed, jobs)
    requires forall job | job in jobs :: AllSupplied(jobs, job)
    ensures NoArtifactClash(contributed, AllProduced(jobs))
  {
    hide Assembled, ResolvedAre, AllProduced, Supplied, Consumed, ArtifactsFor;
    AssembledLength(part, contributed, jobs);
    forall c, p, q | c in contributed && Consumed(c, p, AllProduced(jobs)) && Consumed(c, q, AllProduced(jobs))
                     && p.artifact.name == q.artifact.name
      ensures p.jobName == q.jobName
    {
      var i :| 0 <= i < |contributed| && contributed[i] == c;
      var job := jobs[|part| + i];
      var x := RestoredInput(part, contributed, jobs, i, p);
      var y := RestoredInput(part, contributed, jobs, i, q);
      var resources, deps := ContributedShape(part, contributed, jobs, i);
      var s :| 0 <= s < |job.inputArtifacts| && job.inputArtifacts[s] == x;
      var t :| 0 <= t < |job.inputArtifacts| && job.inputArtifacts[t] == y;
      assert DistinctArtifacts(job.inputArtifacts);
      assert s == t;
    }
  }

  lemma WellFormedNormal(part: seq<Job>, contributed: seq<ContributedJob>, jobs: seq<Job>)
    requires Assembled(part, contributed, jobs) && forall job | job in jobs :: ResourcesOk(jobs, job)
    ensures NormalContributed(contributed)
  {
    hide NormalProducts, NewCommandJob, Resolves, AllProduced, Indexable, Supplied;
    forall c | c in contributed ensures NormalProducts(c) {
      var i :| 0 <= i < |contributed| && contributed[i] == c;
      var job := jobs[|part| + i];
      assert ResolvedAt(part, contributed, jobs, i);
      ResolvesKeeps(NewCommandJob(c), job, c.consumes, AllProduced(jobs));
      assert job in jobs && ResourcesOk(jobs, job);
      CommandProduces(c);
      CarriedIsNormal(c);
    }
  }

  lemma CommandProduces(c: ContributedJob)
    ensures NewCommandJob(c).produces == c.produces
  {
  }

  // ------------------------------------------------------------ what contributed jobs wait for

  /** What a contributed job depends on once resolved is what it declares and what its requests select. */
  lemma AwaitedExactly(part: seq<Job>, contributed: seq<ContributedJob>, jobs: seq<Job>, i: nat, d: string)
    requires Assembled(part, contributed, jobs) && i < |contributed|
    ensures |part| + i < |jobs|
    ensures d in jobs[|part| + i].dependencies <==> d in AwaitingJob(contributed[i], AllProduced(jobs)).dependencies
  {
    var c := contributed[i];
    var resources, deps := ContributedShape(part, contributed, jobs, i);
    AssembledLength(part, contributed, jobs);
    hide Assembled, ResolvedAre, AllProduced, ArtifactsFor, SelectedByAny, Resolves, Specs;
    if Produces(resources, d) {
      var k :| 0 <= k < |resources| && resources[k].resource.jobName == d;
      assert Consumed(c, resources[k].resource, AllProduced(jobs));
    }
    if p :| Consumed(c, p, AllProduced(jobs)) && p.jobName == d {
      assert Listed(resources, p);
      var k :| 0 <= k < |resources| && resources[k].resource == p;
      assert Produces(resources, d);
    }
  }

  lemma SameDependencies(a: seq<Job>, c: seq<Job>)
    requires UniqueNames(a) && Names(a) == Names(c)
    requires forall i, d | 0 <= i < |a| :: d in a[i].dependencies <==> d in c[i].dependencies
    ensures Acyclic(JobGraph(a)) <==> Acyclic(JobGraph(c))
  {
    var g, h := JobGraph(a), JobGraph(c);
    forall u, v ensures Edge(g, u, v) <==> Edge(h, u, v) {
      if u in Names(a) {
        var i :| 0 <= i < |a| && Names(a)[i] == u;
        JobGraphEdges(a, i);
        JobGraphEdges(c, i);
      }
    }
    SameEdgesSameCycles(g, h);
  }

  /** A contributed job waits for what it declares and for the producers of what it requests. */
  lemma AwaitingEdges(b: Build, c: ContributedJob, n: string)
    requires NamesApart(b.plan, b.contributed) && c in b.contributed
    ensures var all := AllProduced(b.Base());
            Edge(JobGraph(Awaiting(b.contributed, all)), c.name, n) <==>
            n in c.dependencies || (n != "" && exists p :: Consumed(c, p, all) && p.jobName == n)
  {
    hide AllProduced, Consumed, MergeAll, Producers;
    var all := AllProduced(b.Base());
    var awaiting := Awaiting(b.contributed, all);
    var i :| 0 <= i < |b.contributed| && b.contributed[i] == c;
    assert forall k | 0 <= k < |awaiting| :: Names(awaiting)[k] == b.contributed[k].name;
    JobGraphEdges(awaiting, i);
  }

  lemma AwaitingIsTail(part: seq<Job>, contributed: seq<ContributedJob>, jobs: seq<Job>)
    requires Assembled(part, contributed, jobs)
    ensures |part| <= |jobs|
    ensures Acyclic(JobGraph(jobs[|part|..])) <==> Acyclic(JobGraph(Awaiting(contributed, AllProduced(jobs))))
  {
    var tail, awaiting := jobs[|part|..], Awaiting(contributed, AllProduced(jobs));
    TailUnique(jobs, |part|);
    TailNames(part, contributed, jobs);
    hide Assembled, AllProduced, JobGraph, NewCommandJob, UniqueNames;
    forall i, d | 0 <= i < |tail| ensures d in tail[i].dependencies <==> d in awaiting[i].dependencies {
      AwaitedExactly(part, contributed, jobs, i, d);
    }
    SameDependencies(tail, awaiting);
  }

  lemma TailNames(part: seq<Job>, contributed: seq<ContributedJob>, jobs: seq<Job>)
    requires Assembled(part, contributed, jobs)
    ensures |part| <= |jobs| && |jobs[|part|..]| == |contributed|
    ensures Names(jobs[|part|..]) == Names(Awaiting(contributed, AllProduced(jobs)))
  {
    hide Resolves, AllProduced, Indexable, NewCommandJob;
    forall i | 0 <= i < |contributed| ensures jobs[|part| + i].name == NewCommandJob(contributed[i]).name {
      assert ResolvedAt(part, contributed, jobs, i);
      ResolvesKeeps(NewCommandJob(contributed[i]), jobs[|part| + i], contributed[i].consumes, AllProduced(jobs));
    }
  }

  /**
   Builder soundness, both ways: with module IDs that are clean paths, names apart and contributed
   jobs as their constructor leaves them, the resolved pipeline is well formed if and only if the
   plan jobs are closed under dependencies, the contributed jobs' declared dependencies exist, no
   consumer meets two producers with one artifact name, contributed products have paths in normal
   form, and what the contributed jobs declare and request of one another is acyclic.
   */
  lemma BuilderExact(b: Build, jobs: seq<Job>)
    requires Setup(b) && Compiled(b, jobs)
    ensures WellFormed(jobs) <==> Sound(b)
  {
    CompiledIsAssembled(b, jobs);
    AwaitingIsTail(b.ModulePart(), b.contributed, jobs);
    hide Setup, Compiled, PlanClosed, NoArtifactClash, DeclaredClosed;
    hide JobOk, EdgesOk, ResourcesOk, Indexable, AllProduced, Supplied;
    hide ModuleJobs, ResolvedAt, Acyclic, AllSupplied, NormalContributed, Awaiting, JobGraph;
    AssembledLength(b.ModulePart(), b.contributed, jobs);
    if Sound(b) {
      SoundIsWellFormed(b, jobs);
    }
    if WellFormed(jobs) {
      WellFormedPlanClosed(b, jobs);
      WellFormedDeclaredClosed(b.ModulePart(), b.contributed, jobs);
      forall job | job in jobs ensures AllSupplied(jobs, job) {
        ConsumesSupplied(jobs, job);
      }
      WellFormedNoClash(b.ModulePart(), b.contributed, jobs);
      WellFormedNormal(b.ModulePart(), b.contributed, jobs);
      TailAcyclic(jobs, |b.ModulePart()|);
      assert DeclaredClosed(b.contributed, b.Base()) by {
        DeclaredByNames(b.contributed, jobs, b.Base());
      }
    }
  }

  lemma ConsumesSupplied(jobs: seq<Job>, job: Job)
    requires ResourcesOk(jobs, job)
    ensures AllSupplied(jobs, job)
  {
  }

  lemma DeclaredByNames(contributed: seq<ContributedJob>, jobs: seq<Job>, base: seq<Job>)
    requires DeclaredClosed(contributed, jobs) && Names(jobs) == Names(base)
    ensures DeclaredClosed(contributed, base)
  {
  }
}
