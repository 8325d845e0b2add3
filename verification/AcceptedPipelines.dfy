/**
 What validation accepts, said of the fields of jobs: names, operations, artifacts, resources and
 paths, and how jobs refer to one another.
 */
module AcceptedPipelines {
  import opened Options
  import opened Digraph
  import opened PipelineIR
  import opened WorkspacePaths
  import opened Text
  import opened ResourceResolution
  import opened Validation
  import opened TerraformJobs
  import opened Producers

  // ------------------------------------------------------------ paths and producer names

  /** A nonempty relative path none of whose components is a step to the parent or names a drive. */
  ghost predicate Inside(path: string) {
    && path != "" && !Separator(path[0])
    && forall i, j | Component(path, i, j) :: path[i..j] != ".." && !DriveAt(path, i, j)
  }

  lemma ValidIsInside()
    ensures forall path :: ValidPath(path) <==> Inside(path)
  {
    forall path ensures ValidPath(path) <==> Inside(path) {
      ValidPathMeans(path);
    }
  }

  /** More than white space, and free of separators. */
  ghost predicate NamesProducer(producer: string) {
    TrimSpace(producer) != "" && forall i | 0 <= i < |producer| :: !Separator(producer[i])
  }

  lemma ProducerNameMeans(producer: string)
    ensures ProducerNameOk(producer) <==> NamesProducer(producer)
  {
    hide TrimSpace, IsSpace;
    var left, right := TrimSpaceMeans(producer);
    if TrimSpace(producer) != "" {
      assert !IsSpace(TrimSpace(producer)[0]) && producer[|left|] == TrimSpace(producer)[0];
    } else {
      AllSpace(producer, left, right);
    }
  }

  lemma AllSpace(s: string, left: string, right: string)
    requires s == left + right && OnlySpace(left) && OnlySpace(right)
    ensures OnlySpace(s)
  {
    hide IsSpace;
  }

  lemma ProducerNames()
    ensures forall producer :: ProducerNameOk(producer) <==> NamesProducer(producer)
  {
    hide ProducerNameOk, NamesProducer;
    forall producer ensures ProducerNameOk(producer) <==> NamesProducer(producer) {
      ProducerNameMeans(producer);
    }
  }

  ghost predicate PlanKind(kind: ResourceKind) {
    kind == PlanBinary || kind == PlanText || kind == PlanJson
  }

  ghost predicate PluginKind(kind: ResourceKind) {
    kind == PluginResult || kind == PluginReport
  }

  /** A request for plans, of all modules or of one; or for results or reports, of all producers or of one. */
  ghost predicate RequestFits(r: ResourceRequest) {
    || (PlanKind(r.kind) && r.producer == ""
        && ((r.scope == AllModules && r.modulePath == "") || (r.scope == OneModule && Inside(r.modulePath))))
    || (PluginKind(r.kind) && r.modulePath == ""
        && ((r.scope == AllProducers && r.producer == "") || (r.scope == OneProducer && NamesProducer(r.producer))))
  }

  lemma RequestOkMeans(r: ResourceRequest)
    ensures RequestOk(r) <==> RequestFits(r)
  {
    ValidIsInside();
    ProducerNames();
    hide ValidPath, Inside, ProducerNameOk, NamesProducer;
  }

  // ------------------------------------------------------------ one job

  ghost predicate OperationFits(job: Job) {
    && (job.kind == PlanJob || job.kind == ApplyJob || job.kind == CommandJob)
    && (job.operation.typ == TerraformPlan <==> job.kind == PlanJob)
    && (job.operation.typ == TerraformApply <==> job.kind == ApplyJob)
    && (job.kind != CommandJob ==> job.moduleID != None && job.operation.terraform != None)
  }

  ghost predicate ArtifactFits(a: Artifact) {
    (a.name == "" <==> a.paths == []) && forall path | path in a.paths :: Inside(path)
  }

  ghost predicate InputFits(input: InputArtifact) {
    ArtifactFits(input.artifact) && (input.producerJob == "" ==> input.artifact == Artifact("", []))
  }

  ghost predicate ResourceFits(spec: ResourceSpec) {
    && Inside(spec.path)
    && (|| (PlanKind(spec.ref.kind) && Inside(spec.ref.modulePath) && spec.ref.producer == "")
        || (PluginKind(spec.ref.kind) && spec.ref.modulePath == "" && NamesProducer(spec.ref.producer)))
  }

  ghost predicate JobFits(job: Job) {
    && job.name != "" && OperationFits(job) && ArtifactFits(job.outputArtifact)
    && (forall input | input in job.inputArtifacts :: InputFits(input))
    && (forall spec | spec in job.produces || spec in job.consumes :: ResourceFits(spec))
  }

  lemma ArtifactOkMeans(a: Artifact)
    ensures ArtifactOk(a) <==> ArtifactFits(a)
  {
    ValidIsInside();
    hide ValidPath, Inside;
    assert a.paths != [] ==> a.paths[0] in a.paths;
  }

  lemma InputOkMeans(input: InputArtifact)
    ensures InputOk(input) <==> InputFits(input)
  {
    ArtifactOkMeans(input.artifact);
    EmptyArtifactFits();
    hide ArtifactOk, ArtifactFits;
  }

  lemma EmptyArtifactFits()
    ensures ArtifactFits(Artifact("", []))
  {
  }

  lemma ResourceOkMeans(spec: ResourceSpec)
    ensures ResourceOk(spec) <==> ResourceFits(spec)
  {
    ValidIsInside();
    ProducerNames();
    hide ValidPath, Inside, ProducerNameOk, NamesProducer;
  }

  lemma JobOkMeans(job: Job)
    ensures JobOk(job) <==> JobFits(job)
  {
    hide ArtifactOk, ArtifactFits, InputOk, InputFits, ResourceOk, ResourceFits;
    ArtifactOkMeans(job.outputArtifact);
    forall input ensures InputOk(input) <==> InputFits(input) {
      InputOkMeans(input);
    }
    forall spec ensures ResourceOk(spec) <==> ResourceFits(spec) {
      ResourceOkMeans(spec);
    }
  }

  // ------------------------------------------------------------ modules and contributed jobs

  lemma NotBlankMeans(s: string)
    ensures NotBlank(s) <==> TrimSpace(s) != ""
  {
    hide TrimSpace, IsSpace;
    var left, right := TrimSpaceMeans(s);
    if TrimSpace(s) != "" {
      assert !IsSpace(TrimSpace(s)[0]) && s[|left|] == TrimSpace(s)[0];
    } else {
      AllSpace(s, left, right);
    }
  }

  /** What a contributed job's constructor checks, said of its fields. */
  lemma ContributedOkMeans(c: ContributedJob)
    ensures ContributedOk(c) <==>
              && c.name != "" && c.commands != []
              && (forall s | s in c.commands || s in c.dependencies :: TrimSpace(s) != "")
              && (forall r | r in c.consumes :: RequestFits(r))
              && (forall spec | spec in c.produces :: ResourceFits(spec))
              && (forall i, j | 0 <= i < j < |c.produces| :: c.produces[i].ref != c.produces[j].ref)
  {
    hide NotBlank, RequestOk, ResourceOk, RequestFits, ResourceFits, TrimSpace;
    forall s ensures NotBlank(s) <==> TrimSpace(s) != "" {
      NotBlankMeans(s);
    }
    forall r ensures RequestOk(r) <==> RequestFits(r) {
      RequestOkMeans(r);
    }
    forall spec ensures ResourceOk(spec) <==> ResourceFits(spec) {
      ResourceOkMeans(spec);
    }
  }

  /** Module IDs: paths inside the workspace, with forward slashes only and none at the end. */
  lemma ModulePathOkMeans(m: string)
    ensures ModulePathOk(m) <==> Inside(m) && '\\' !in m && m[|m| - 1] != '/'
  {
    ValidIsInside();
    hide ValidPath;
  }

  // ------------------------------------------------------------ jobs among one another

  /** The job restores an artifact of the producer, unchanged. */
  ghost predicate RestoresOutput(job: Job, producer: Job) {
    && producer.name in job.dependencies && producer.outputArtifact.paths != []
    && exists input :: input in job.inputArtifacts && input.producerJob == producer.name
                       && input.artifact == producer.outputArtifact
  }

  ghost predicate LinksFit(jobs: seq<Job>, job: Job) {
    && (forall d | d in job.dependencies :: exists q :: q in jobs && q.name == d)
    && (forall input | input in job.inputArtifacts && input.artifact.paths != [] ::
          exists q :: q in jobs && q.name == input.producerJob && RestoresOutput(job, q)
                      && q.outputArtifact == input.artifact)
    && (forall spec | spec in job.produces :: spec.path in job.outputArtifact.paths)
    && (forall spec | spec in job.consumes ::
          exists q :: q in jobs && spec in q.produces && (q.name == job.name || RestoresOutput(job, q)))
  }

  ghost predicate OneProducerEach(jobs: seq<Job>) {
    && (forall q | q in jobs :: OwnRefsDistinct(q))
    && forall q, t | q in jobs && t in jobs && q.name != t.name :: RefsApart(q, t)
  }

  lemma NamesListed(jobs: seq<Job>, d: string)
    ensures d in Names(jobs) <==> exists q :: q in jobs && q.name == d
  {
    if q :| q in jobs && q.name == d {
      var i :| 0 <= i < |jobs| && jobs[i] == q;
      assert Names(jobs)[i] == d;
    }
  }

  ghost predicate AllFit(jobs: seq<Job>) {
    forall job | job in jobs :: JobFits(job)
  }

  /** An input with an artifact is configured. */
  lemma ConfiguredInput(input: InputArtifact)
    requires InputFits(input)
    ensures input.Configured() <==> input.artifact.paths != []
  {
    hide Inside;
  }

  lemma InputsConfigured(job: Job)
    requires JobFits(job)
    ensures forall input | input in job.inputArtifacts :: input.Configured() <==> input.artifact.paths != []
    ensures job.outputArtifact.paths != [] ==> job.outputArtifact.Configured()
  {
    hide InputFits, ResourceFits, OperationFits, Inside;
    forall input | input in job.inputArtifacts ensures input.Configured() <==> input.artifact.paths != [] {
      ConfiguredInput(input);
    }
  }

  lemma RestoredMeans(job: Job, producer: Job)
    requires JobFits(job)
    ensures producer.name in job.dependencies && RestoredFrom(job, producer) <==> RestoresOutput(job, producer)
  {
    InputsConfigured(job);
    hide JobFits;
  }

  lemma LinksMean(jobs: seq<Job>, job: Job)
    requires JobFits(job)
    ensures EdgesOk(jobs, job) && ResourcesOk(jobs, job) <==> LinksFit(jobs, job)
  {
    InputsConfigured(job);
    hide JobFits;
    forall d ensures d in Names(jobs) <==> exists q :: q in jobs && q.name == d {
      NamesListed(jobs, d);
    }
    forall q: Job ensures q.name in job.dependencies && RestoredFrom(job, q) <==> RestoresOutput(job, q) {
      RestoredMeans(job, q);
    }
    hide RestoredFrom;
    forall input | input in job.inputArtifacts && input.artifact.paths != []
      ensures Restores(jobs, job, input) <==>
              exists q :: q in jobs && q.name == input.producerJob && RestoresOutput(job, q)
                          && q.outputArtifact == input.artifact
    {
    }
    hide RestoresOutput;
  }

  lemma PublishedWhenCarried(jobs: seq<Job>)
    requires AllFit(jobs)
    requires forall job, spec | job in jobs && spec in job.produces :: spec.path in job.outputArtifact.paths
    ensures forall p | p in AllProduced(jobs) :: Publishable(p)
  {
    hide JobFits, AllProduced;
    forall p | p in AllProduced(jobs) ensures Publishable(p) {
      ListedWhenProduced(jobs, p);
      var q :| q in jobs && p.spec in q.produces && p == Listing(q, p.spec);
      InputsConfigured(q);
      FittingProduct(q, p.spec);
    }
  }

  lemma FittingProduct(job: Job, spec: ResourceSpec)
    requires JobFits(job) && spec in job.produces
    ensures spec.ref.kind != NoKind && spec.path != ""
  {
    hide OperationFits, ArtifactFits, InputFits;
    assert ResourceFits(spec);
  }

  /**
   Validation accepts exactly the pipelines whose jobs have names of their own and fit on their own, link
   to jobs of the pipeline, leave each resource to one producer, and do not wait for themselves.
   */
  lemma AcceptedMeans(jobs: seq<Job>)
    ensures WellFormed(jobs) <==>
              && (forall i, j | 0 <= i < j < |jobs| :: jobs[i].name != jobs[j].name)
              && (forall job | job in jobs :: JobFits(job) && LinksFit(jobs, job))
              && OneProducerEach(jobs)
              && forall job | job in jobs :: !Reaches(JobGraph(jobs), job.name, job.name)
  {
    hide JobOk, JobFits, EdgesOk, ResourcesOk, LinksFit, AllProduced, DistinctRefs, OwnRefsDistinct, RefsApart;
    hide Acyclic, Reaches, JobGraph, Publishable;
    CyclesThroughJobs(jobs);
    forall job ensures JobOk(job) <==> JobFits(job) {
      JobOkMeans(job);
    }
    forall job | JobFits(job) ensures EdgesOk(jobs, job) && ResourcesOk(jobs, job) <==> LinksFit(jobs, job) {
      LinksMean(jobs, job);
    }
    if UniqueNames(jobs) {
      DistinctRefsMeans(jobs);
    }
    if AllFit(jobs) && forall job | job in jobs :: LinksFit(jobs, job) {
      CarriedWhenLinked(jobs);
      PublishedWhenCarried(jobs);
    }
  }

  lemma CarriedWhenLinked(jobs: seq<Job>)
    requires forall job | job in jobs :: LinksFit(jobs, job)
    ensures forall job, spec | job in jobs && spec in job.produces :: spec.path in job.outputArtifact.paths
  {
    hide RestoresOutput;
  }

  lemma CyclesThroughJobs(jobs: seq<Job>)
    ensures Acyclic(JobGraph(jobs)) <==> forall job | job in jobs :: !Reaches(JobGraph(jobs), job.name, job.name)
  {
    var g := JobGraph(jobs);
    hide JobGraph;
    if u :| Reaches(g, u, u) {
      OnCycleIsNamed(jobs, u);
      NamesListed(jobs, u);
    }
  }

  lemma OnCycleIsNamed(jobs: seq<Job>, u: string)
    requires Reaches(JobGraph(jobs), u, u)
    ensures u in Names(jobs)
  {
    var p :| Path(JobGraph(jobs), p, u, u);
    assert Edge(JobGraph(jobs), p[0], p[1]);
  }

  // ------------------------------------------------------------ paths of accepted pipelines

  /** The job mentions the path: in an artifact, as the place of a resource, or as the module of a plan. */
  ghost predicate Mentions(job: Job, path: string) {
    || path in job.outputArtifact.paths
    || (exists input :: input in job.inputArtifacts && path in input.artifact.paths)
    || exists spec :: (spec in job.produces || spec in job.consumes)
                      && (path == spec.path || (path == spec.ref.modulePath && path != ""))
  }

  /** No path of a job in an accepted pipeline leaves the workspace. */
  lemma AcceptedStaysInside(jobs: seq<Job>, job: Job, path: string)
    requires WellFormed(jobs) && job in jobs && Mentions(job, path)
    ensures Inside(path)
  {
    JobOkMeans(job);
    hide JobOk, OperationFits, Inside;
  }
}
