/**
 What requests amount to, said of the fields of requests, jobs and products: which builds can be
 resolved, and what a contributed job consumes, waits for and restores.
 */
module RequestedResources {
  import opened Digraph
  import opened PipelineIR
  import opened WorkspacePaths
  import opened ResourceResolution
  import opened Validation
  import opened TerraformJobs
  import opened Building
  import opened BuilderSoundness
  import opened Producers

  /** The request is for products like this: all of a kind, or those of one module or producer. */
  ghost predicate AsksFor(r: ResourceRequest, ref: ResourceRef) {
    && r.kind == ref.kind
    && (|| r.scope == AllModules || r.scope == AllProducers
        || (r.scope == OneModule && r.modulePath == ref.modulePath)
        || (r.scope == OneProducer && r.producer == ref.producer))
  }

  /** Valid references carry the selector of their kind, so that matching is asking. */
  lemma MatchingIsAsking(r: ResourceRequest, ref: ResourceRef)
    ensures ResourceMatches(r, ref) <==>
              && AsksFor(r, ref)
              && (r.scope == AllModules ==> ref.modulePath != "") && (r.scope == AllProducers ==> ref.producer != "")
    ensures RequestOk(r) && RefOk(ref) ==> (ResourceMatches(r, ref) <==> AsksFor(r, ref))
  {
    hide Segments, SafeSegment;
  }

  /** r is one of c's requests and asks for a product of another job. */
  ghost predicate Requested(jobs: seq<Job>, c: ContributedJob, r: ResourceRequest, producer: Job, spec: ResourceSpec) {
    && r in c.consumes && producer in jobs && producer.name != c.name && spec in producer.produces
    && AsksFor(r, spec.ref)
  }

  ghost predicate ConsumesRequested(job: Job, jobs: seq<Job>, c: ContributedJob) {
    && Distinct(job.consumes)
    && forall spec :: spec in job.consumes <==> exists r, producer :: Requested(jobs, c, r, producer, spec)
  }

  ghost predicate WaitsForRequested(job: Job, jobs: seq<Job>, c: ContributedJob) {
    && c.dependencies <= job.dependencies
    && forall d :: d in job.dependencies <==>
         d in c.dependencies || exists r, producer, spec :: Requested(jobs, c, r, producer, spec) && producer.name == d
  }

  /** No request that leads to an artifact of that name insists. */
  ghost predicate NoRequestInsists(name: string, jobs: seq<Job>, c: ContributedJob) {
    forall r, q, spec | Requested(jobs, c, r, q, spec) && q.outputArtifact.name == name :: r.optional
  }

  ghost predicate RestoredFor(input: InputArtifact, jobs: seq<Job>, c: ContributedJob) {
    && (exists r, q, spec :: Requested(jobs, c, r, q, spec) && input.artifact == q.outputArtifact
          && input.producerJob == q.name)
    && (input.optional <==> NoRequestInsists(input.artifact.name, jobs, c))
  }

  /** One artifact per name among the producers', optional if every request that leads to that name is. */
  ghost predicate RestoresRequested(job: Job, jobs: seq<Job>, c: ContributedJob) {
    && (forall i, j | 0 <= i < j < |job.inputArtifacts| ::
          job.inputArtifacts[i].artifact.name != job.inputArtifacts[j].artifact.name)
    && (forall r, q, spec | Requested(jobs, c, r, q, spec) ::
          exists input :: input in job.inputArtifacts && input.artifact.name == q.outputArtifact.name)
    && (forall input | input in job.inputArtifacts :: RestoredFor(input, jobs, c))
  }

  // ------------------------------------------------------------ from products to their jobs

  /** A job that is named and whose products have valid references. */
  ghost predicate JobValid(job: Job) {
    job.name != "" && forall spec | spec in job.produces :: RefOk(spec.ref)
  }

  ghost predicate ProductsValid(jobs: seq<Job>) {
    forall q | q in jobs :: JobValid(q)
  }

  /** A request selects exactly the products it asks for. */
  lemma SelectedIsRequested(jobs: seq<Job>, c: ContributedJob, r: ResourceRequest, p: ProducedResource)
    requires RequestOk(r) && ProductsValid(jobs) && r in c.consumes
    ensures p in AllProduced(jobs) && Selects(r, p, c.name) <==>
            exists q :: Requested(jobs, c, r, q, p.spec) && p == Listing(q, p.spec)
  {
    hide ResourceMatches, AsksFor, RequestOk, RefOk, AllProduced;
    ListedWhenProduced(jobs, p);
    forall q | q in jobs && p.spec in q.produces
      ensures ResourceMatches(r, p.spec.ref) <==> AsksFor(r, p.spec.ref)
    {
      MatchingIsAsking(r, p.spec.ref);
    }
  }

  ghost predicate RequestsValid(c: ContributedJob) {
    forall r | r in c.consumes :: RequestOk(r)
  }

  lemma ChosenIsRequested(jobs: seq<Job>, c: ContributedJob, p: ProducedResource)
    requires RequestsValid(c) && ProductsValid(jobs)
    ensures Chosen(p, c.consumes, AllProduced(jobs), c.name) <==>
            exists r, q :: Requested(jobs, c, r, q, p.spec) && p == Listing(q, p.spec)
  {
    hide Requested, ProductsValid, AllProduced, Selects, RequestOk, Listing;
    forall r | r in c.consumes
      ensures p in AllProduced(jobs) && Selects(r, p, c.name) <==>
              exists q :: Requested(jobs, c, r, q, p.spec) && p == Listing(q, p.spec)
    {
      SelectedIsRequested(jobs, c, r, p);
    }
    forall r, q | Requested(jobs, c, r, q, p.spec) ensures r in c.consumes {
      RequestIsDeclared(jobs, c, r, q, p.spec);
    }
  }

  lemma RequestIsDeclared(jobs: seq<Job>, c: ContributedJob, r: ResourceRequest, q: Job, spec: ResourceSpec)
    requires Requested(jobs, c, r, q, spec)
    ensures r in c.consumes && q in jobs
  {
  }

  lemma RequestedIsChosen(jobs: seq<Job>, c: ContributedJob, r: ResourceRequest, q: Job, spec: ResourceSpec)
    requires RequestsValid(c) && ProductsValid(jobs) && Requested(jobs, c, r, q, spec)
    ensures var p := Listing(q, spec);
            && p in AllProduced(jobs) && Selects(r, p, c.name)
            && Chosen(p, c.consumes, AllProduced(jobs), c.name)
  {
    RequestIsDeclared(jobs, c, r, q, spec);
    hide Requested, ProductsValid, AllProduced, Selects, RequestOk;
    SelectedIsRequested(jobs, c, r, Listing(q, spec));
  }

  lemma InsistingIsRequesting(name: string, jobs: seq<Job>, c: ContributedJob)
    requires RequestsValid(c) && ProductsValid(jobs)
    ensures NoneInsistsOn(name, c.consumes, AllProduced(jobs), c.name) <==> NoRequestInsists(name, jobs, c)
  {
    hide Requested, ProductsValid, AllProduced, Selects, RequestOk, Chosen;
    if NoneInsistsOn(name, c.consumes, AllProduced(jobs), c.name) {
      forall r, q, spec | Requested(jobs, c, r, q, spec) && q.outputArtifact.name == name ensures r.optional {
        RequestedIsChosen(jobs, c, r, q, spec);
        RequestIsDeclared(jobs, c, r, q, spec);
      }
    }
    if NoRequestInsists(name, jobs, c) {
      forall r, p | r in c.consumes && p in AllProduced(jobs) && p.artifact.name == name && Selects(r, p, c.name)
        ensures r.optional
      {
        SelectedIsRequested(jobs, c, r, p);
        var q :| Requested(jobs, c, r, q, p.spec) && p == Listing(q, p.spec);
      }
    }
  }

  // ------------------------------------------------------------ what a contributed job gains

  lemma GainsAreRequested(inputs: JobInputs, jobs: seq<Job>, c: ContributedJob)
    requires RequestsValid(c) && ProductsValid(jobs)
    requires GainsExactly(inputs, c.consumes, AllProduced(jobs), c.name)
    ensures forall spec :: spec in inputs.consumes <==> exists r, q :: Requested(jobs, c, r, q, spec)
    ensures forall d :: d in inputs.dependencies <==>
              exists r, q, spec :: Requested(jobs, c, r, q, spec) && q.name == d
  {
    hide Requested, AllProduced, RequestsValid, Chosen, DistinctArtifacts, CarriedBy, NoneInsistsOn;
    forall p
      ensures Chosen(p, c.consumes, AllProduced(jobs), c.name) <==>
              exists r, q :: Requested(jobs, c, r, q, p.spec) && p == Listing(q, p.spec)
    {
      ChosenIsRequested(jobs, c, p);
    }
    forall r, q, spec | Requested(jobs, c, r, q, spec)
      ensures Chosen(Listing(q, spec), c.consumes, AllProduced(jobs), c.name) && q.name != ""
    {
      RequestedIsChosen(jobs, c, r, q, spec);
      RequestIsDeclared(jobs, c, r, q, spec);
    }
  }

  lemma ArtifactsAreRequested(inputs: JobInputs, jobs: seq<Job>, c: ContributedJob)
    requires RequestsValid(c) && ProductsValid(jobs)
    requires GainsExactly(inputs, c.consumes, AllProduced(jobs), c.name)
    ensures forall r, q, spec | Requested(jobs, c, r, q, spec) ::
              CarriedBy(inputs.artifacts, q.outputArtifact.name)
    ensures forall input | input in inputs.artifacts :: RestoredFor(input, jobs, c)
  {
    hide Requested, AllProduced, RequestsValid, ProductsValid, Chosen, DistinctArtifacts, CarriedBy, NoneInsistsOn;
    hide NoRequestInsists;
    forall r, q, spec | Requested(jobs, c, r, q, spec) ensures CarriedBy(inputs.artifacts, q.outputArtifact.name) {
      RequestedIsChosen(jobs, c, r, q, spec);
      assert Listing(q, spec).artifact == q.outputArtifact;
    }
    forall input | input in inputs.artifacts ensures RestoredFor(input, jobs, c) {
      InsistingIsRequesting(input.artifact.name, jobs, c);
      var p :| Chosen(p, c.consumes, AllProduced(jobs), c.name) && input.artifact == p.artifact
          && input.producerJob == p.jobName;
      ChosenIsRequested(jobs, c, p);
    }
  }

  lemma ConsumesDistinct(resources: seq<ResolvedResource>, requests: seq<ResourceRequest>, all: seq<ProducedResource>,
                         consumer: string)
    requires ResolvedAre(resources, requests, all, consumer) && DistinctRefs(all)
    ensures Distinct(Specs(resources))
  {
    hide SelectedByAny, OptionalForAll, DistinctRefs;
    forall i, j | 0 <= i < j < |resources| ensures Specs(resources)[i] != Specs(resources)[j] {
      assert Listed(resources, resources[i].resource) && Listed(resources, resources[j].resource);
      if resources[i].resource.spec.ref == resources[j].resource.spec.ref {
        SameRefSame(all, resources[i].resource, resources[j].resource);
      }
    }
  }

  lemma AssembledValid(part: seq<Job>, contributed: seq<ContributedJob>, jobs: seq<Job>, q: Job)
    requires Assembled(part, contributed, jobs) && q in jobs
    requires forall job | job in part :: JobValid(job)
    requires forall c | c in contributed :: JobValid(NewCommandJob(c))
    ensures JobValid(q)
  {
    hide JobValid, Resolves, NewCommandJob, AllProduced, Assembled;
    if q !in part {
      var i := JobAt(part, contributed, jobs, q);
      ResolvesKeeps(NewCommandJob(contributed[i]), q, contributed[i].consumes, AllProduced(jobs));
      SameProductsValid(NewCommandJob(contributed[i]), q);
    }
  }

  lemma SameProductsValid(before: Job, after: Job)
    requires before.name == after.name && before.produces == after.produces && JobValid(before)
    ensures JobValid(after)
  {
  }

  lemma PartValid(b: Build)
    requires Setup(b)
    ensures forall job | job in b.ModulePart() :: JobValid(job)
    ensures forall c | c in b.contributed :: JobValid(NewCommandJob(c))
  {
    SetupPlanned(b);
    hide Setup, GraphPlanned, JobFine, JobValid, ModuleJobs, NewCommandJob;
    forall job | job in b.ModulePart() ensures JobValid(job) {
      ModuleJobFine(b, job);
      FineIsValid(job);
    }
    forall c | c in b.contributed ensures JobValid(NewCommandJob(c)) {
      ContributedValid(b, c);
    }
  }

  lemma PipelineProductsValid(b: Build, jobs: seq<Job>)
    requires Setup(b) && Compiled(b, jobs)
    ensures ProductsValid(jobs)
  {
    CompiledIsAssembled(b, jobs);
    PartValid(b);
    hide Setup, Compiled, Assembled, ModuleJobs, NewCommandJob;
    forall q | q in jobs ensures JobValid(q) {
      AssembledValid(b.ModulePart(), b.contributed, jobs, q);
    }
  }

  lemma SetupPlanned(b: Build)
    requires Setup(b)
    ensures GraphPlanned(b.plan)
  {
  }

  lemma FineIsValid(job: Job)
    requires JobFine(job)
    ensures JobValid(job)
  {
    hide RefOk, ValidPath, ArtifactOk, OperationOk;
  }

  lemma ContributedValid(b: Build, c: ContributedJob)
    requires Setup(b) && c in b.contributed
    ensures RequestsValid(c) && JobValid(NewCommandJob(c))
  {
    hide RefOk, RequestOk, ValidPath, NotBlank, GraphPlanned, NamesApart;
  }

  /**
   A contributed job of a compiled pipeline consumes, waits for and restores what its requests ask
   for among the products of the other jobs, and nothing else but the dependencies it declares.
   */
  lemma ContributedGains(b: Build, jobs: seq<Job>, i: nat)
    requires Setup(b) && Compiled(b, jobs) && i < |b.contributed|
    ensures |b.contributed| <= |jobs|
    ensures var c, job := b.contributed[i], jobs[|jobs| - |b.contributed| + i];
            ConsumesRequested(job, jobs, c) && WaitsForRequested(job, jobs, c) && RestoresRequested(job, jobs, c)
  {
    hide ConsumesRequested, WaitsForRequested, RestoresRequested, Setup, Compiled, ModuleJobs, AllRequests;
    var c := b.contributed[i];
    CompiledIsAssembled(b, jobs);
    PipelineProductsValid(b, jobs);
    ContributedValid(b, c);
    hide ProductsValid, RequestsValid, Assembled;
    AssembledLength(b.ModulePart(), b.contributed, jobs);
    GainsOfNth(b.ModulePart(), b.contributed, jobs, i);
  }

  lemma GainsOfNth(part: seq<Job>, contributed: seq<ContributedJob>, jobs: seq<Job>, i: nat)
    requires Assembled(part, contributed, jobs) && i < |contributed| && |part| + i < |jobs|
    requires RequestsValid(contributed[i]) && ProductsValid(jobs)
    ensures var c, job := contributed[i], jobs[|part| + i];
            ConsumesRequested(job, jobs, c) && WaitsForRequested(job, jobs, c) && RestoresRequested(job, jobs, c)
  {
    hide ConsumesRequested, WaitsForRequested, RestoresRequested, ProductsValid, RequestsValid, ResolvesWith;
    hide ResolvedAt, AllProduced, DistinctRefs;
    var resources, deps := ContributedShape(part, contributed, jobs, i);
    GainsOf(jobs, contributed[i], jobs[|part| + i], resources, deps);
  }

  lemma GainsOf(jobs: seq<Job>, c: ContributedJob, job: Job, resources: seq<ResolvedResource>, deps: seq<string>)
    requires RequestsValid(c) && ProductsValid(jobs) && DistinctRefs(AllProduced(jobs))
    requires ResolvesWith(NewCommandJob(c), job, c.consumes, AllProduced(jobs), resources, deps)
    ensures ConsumesRequested(job, jobs, c) && WaitsForRequested(job, jobs, c) && RestoresRequested(job, jobs, c)
  {
    ResolvesByField(c, job, AllProduced(jobs), resources, deps);
    hide ResolvesWith, ResolvedAre, InputsFor, RequestsValid, ProductsValid, AllProduced, DistinctRefs, GainsExactly;
    hide Requested, RestoredFor;
    var inputs := JobInputs(job.consumes, job.inputArtifacts, deps);
    InputsGainExactly(inputs, resources, c.consumes, AllProduced(jobs), c.name);
    GainsAreRequested(inputs, jobs, c);
    ArtifactsAreRequested(inputs, jobs, c);
    ConsumesDistinct(resources, c.consumes, AllProduced(jobs), c.name);
    ArtifactNamesApart(inputs.artifacts, deps, resources);
  }

  lemma ArtifactNamesApart(artifacts: seq<InputArtifact>, deps: seq<string>, resources: seq<ResolvedResource>)
    requires InputsFor(artifacts, deps, resources)
    ensures forall i, j | 0 <= i < j < |artifacts| :: artifacts[i].artifact.name != artifacts[j].artifact.name
  {
    hide ArtifactsFor, Produces;
  }

  lemma ResolvesByField(c: ContributedJob, job: Job, all: seq<ProducedResource>, resources: seq<ResolvedResource>,
                        deps: seq<string>)
    requires ResolvesWith(NewCommandJob(c), job, c.consumes, all, resources, deps)
    ensures ResolvedAre(resources, c.consumes, all, c.name) && InputsFor(job.inputArtifacts, deps, resources)
    ensures job.consumes == Specs(resources) && job.dependencies == MergeAll(c.dependencies, deps)
    ensures forall d | d in deps :: d != ""
  {
    hide ResolvedAre, ArtifactsFor, Produces, DistinctArtifacts;
  }
}
