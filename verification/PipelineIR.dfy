/**
 The provider-agnostic pipeline: jobs, the resources and artifacts they exchange, and the
 dependency graph the jobs span.
 */
module PipelineIR {
  import opened Options
  import opened Digraph

  datatype JobKind = PlanJob | ApplyJob | CommandJob | UnknownJobKind

  datatype ResourceKind = NoKind | PlanBinary | PlanText | PlanJson | PluginResult | PluginReport | UnknownKind

  datatype ResourceScope = NoScope | AllModules | OneModule | AllProducers | OneProducer

  datatype ResourceRef = ResourceRef(kind: ResourceKind, modulePath: string, producer: string)

  datatype ResourceSpec = ResourceSpec(ref: ResourceRef, path: string)

  datatype ResourceRequest = ResourceRequest(
    kind: ResourceKind, scope: ResourceScope, modulePath: string, producer: string, optional: bool)

  datatype Artifact = Artifact(name: string, paths: seq<string>) {
    predicate Configured() {
      name != "" && paths != []
    }
  }

  const NO_ARTIFACT := Artifact("", [])

  datatype InputArtifact = InputArtifact(artifact: Artifact, producerJob: string, optional: bool) {
    predicate Configured() {
      producerJob != "" && artifact.Configured()
    }
  }

  datatype OperationType = TerraformPlan | TerraformApply | Commands

  datatype TerraformOperation = TerraformOperation(
    kind: OperationType, modulePath: string, planFile: string, planTextFile: string, planJsonFile: string,
    detailedPlan: bool, usePlanFile: bool)

  datatype Operation = Operation(typ: OperationType, terraform: Option<TerraformOperation>, commands: seq<string>)

  /** A job; its module is given by the module's ID, and a dependency by the job name it points to. */
  datatype Job = Job(
    name: string,
    kind: JobKind,
    moduleID: Option<string>,
    dependencies: seq<string>,
    inputArtifacts: seq<InputArtifact>,
    outputArtifact: Artifact,
    consumes: seq<ResourceSpec>,
    produces: seq<ResourceSpec>,
    allowFailure: bool,
    operation: Operation)

  function Names(jobs: seq<Job>): (r: seq<string>)
    ensures |r| == |jobs| && forall i | 0 <= i < |r| :: r[i] == jobs[i].name
  {
    seq(|jobs|, i requires 0 <= i < |jobs| => jobs[i].name)
  }

  ghost predicate UniqueNames(jobs: seq<Job>) {
    Distinct(Names(jobs))
  }

  function DependencyMap(jobs: seq<Job>): (m: map<string, seq<string>>)
    ensures forall n :: n in m <==> n in Names(jobs)
  {
    if jobs == [] then map[]
    else
      var last := |jobs| - 1;
      NamesSnoc(jobs, last);
      DependencyMap(jobs[..last])[jobs[last].name := jobs[last].dependencies]
  }

  lemma NamesSnoc(jobs: seq<Job>, k: nat)
    requires k < |jobs|
    ensures Names(jobs[..k + 1]) == Names(jobs[..k]) + [jobs[k].name]
    ensures jobs[..|jobs|] == jobs
  {
  }

  lemma NamesConcat(a: seq<Job>, b: seq<Job>)
    ensures Names(a + b) == Names(a) + Names(b)
  {
  }

  /** An edge from every job to each job it depends on. */
  function JobGraph(jobs: seq<Job>): Graph {
    Graph(Elements(Names(jobs)), DependencyMap(jobs))
  }

  lemma {:induction false} JobGraphEdges(jobs: seq<Job>, i: nat)
    requires UniqueNames(jobs) && i < |jobs|
    ensures jobs[i].name in JobGraph(jobs).nodes
    ensures Succ(JobGraph(jobs), jobs[i].name) == jobs[i].dependencies
  {
    var last := |jobs| - 1;
    NamesSnoc(jobs, last);
    assert Names(jobs)[i] == jobs[i].name;
    if i < last {
      assert forall a | 0 <= a < last :: Names(jobs[..last])[a] == Names(jobs)[a];
      assert UniqueNames(jobs[..last]);
      JobGraphEdges(jobs[..last], i);
      assert Names(jobs)[i] != Names(jobs)[last];
    }
  }

  /** Every dependency names a job of the list. */
  ghost predicate ClosedJobs(jobs: seq<Job>) {
    forall i, d | 0 <= i < |jobs| && d in jobs[i].dependencies :: d in Names(jobs)
  }

  lemma ClosedJobsClosedGraph(jobs: seq<Job>)
    requires UniqueNames(jobs)
    ensures ClosedJobs(jobs) <==> Closed(JobGraph(jobs))
  {
    var g := JobGraph(jobs);
    if ClosedJobs(jobs) {
      forall u, v | Edge(g, u, v) ensures u in g.nodes && v in g.nodes {
        assert u in Names(jobs);
        var i :| 0 <= i < |jobs| && Names(jobs)[i] == u;
        JobGraphEdges(jobs, i);
        assert v in jobs[i].dependencies;
      }
    }
    if Closed(g) {
      forall i, d | 0 <= i < |jobs| && d in jobs[i].dependencies ensures d in Names(jobs) {
        JobGraphEdges(jobs, i);
        assert Edge(g, jobs[i].name, d);
      }
    }
  }

  /** The jobs whose names are in s, in order. */
  function FilterJobs(jobs: seq<Job>, s: set<string>): (r: seq<Job>)
    ensures forall j :: j in r <==> j in jobs && j.name in s
  {
    if jobs == [] then []
    else
      var last := |jobs| - 1;
      assert jobs == jobs[..last] + [jobs[last]];
      FilterJobs(jobs[..last], s) + if jobs[last].name in s then [jobs[last]] else []
  }

  lemma FilterJobsSnoc(jobs: seq<Job>, k: nat, s: set<string>)
    requires k < |jobs|
    ensures FilterJobs(jobs[..k + 1], s) == FilterJobs(jobs[..k], s) + if jobs[k].name in s then [jobs[k]] else []
    ensures jobs[..|jobs|] == jobs
  {
    assert jobs[..k + 1][..k] == jobs[..k];
  }

  lemma {:induction false} FilterJobsUnique(jobs: seq<Job>, s: set<string>)
    requires UniqueNames(jobs)
    ensures UniqueNames(FilterJobs(jobs, s))
    ensures forall n :: n in Names(FilterJobs(jobs, s)) <==> n in Names(jobs) && n in s
  {
    if jobs != [] {
      var last := |jobs| - 1;
      NamesSnoc(jobs, last);
      assert forall a | 0 <= a < last :: Names(jobs[..last])[a] == Names(jobs)[a];
      FilterJobsUnique(jobs[..last], s);
      var r := FilterJobs(jobs[..last], s);
      assert jobs[last].name !in Names(jobs[..last]) by {
        assert Names(jobs)[last] == jobs[last].name;
      }
      NamesConcat(r, [jobs[last]]);
      assert Names([jobs[last]]) == [jobs[last].name];
    }
  }
}
