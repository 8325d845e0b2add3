/**
 Validation of a pipeline: every job well formed, every dependency, restored artifact and consumed
 resource accounted for, and no dependency cycle.
 */
module Validation {
  import opened Options
  import opened Digraph
  import opened PipelineIR
  import opened WorkspacePaths
  import opened ResourceResolution

  datatype Verdict =
    | Accepted
    | DuplicateName(name: string)
    | MalformedJob(name: string)
    | BadEdges(name: string)
    | UnindexableResources
    | BadResources(name: string)
    | CyclicAt(name: string)

  // ------------------------------------------------------------ one job on its own

  predicate OperationOk(job: Job) {
    match job.kind
    case PlanJob => job.moduleID.Some? && job.operation.typ == TerraformPlan && job.operation.terraform.Some?
    case ApplyJob => job.moduleID.Some? && job.operation.typ == TerraformApply && job.operation.terraform.Some?
    case CommandJob => job.operation.typ == Commands
    case UnknownJobKind => false
  }

  predicate ArtifactOk(a: Artifact) {
    if a.name == "" then a.paths == [] else a.paths != [] && forall p | p in a.paths :: ValidPath(p)
  }

  predicate InputOk(input: InputArtifact) {
    || input == InputArtifact(NO_ARTIFACT, "", input.optional)
    || (input.producerJob != "" && ArtifactOk(input.artifact))
  }

  predicate RefOk(ref: ResourceRef) {
    if IsPlanKind(ref.kind) then ValidPath(ref.modulePath) && ref.producer == ""
    else IsPluginKind(ref.kind) && ProducerNameOk(ref.producer) && ref.modulePath == ""
  }

  predicate ResourceOk(spec: ResourceSpec) {
    RefOk(spec.ref) && ValidPath(spec.path)
  }

  predicate JobOk(job: Job) {
    && job.name != "" && OperationOk(job) && ArtifactOk(job.outputArtifact)
    && (forall input | input in job.inputArtifacts :: InputOk(input))
    && (forall spec | spec in job.produces :: ResourceOk(spec))
    && (forall spec | spec in job.consumes :: ResourceOk(spec))
  }

  // ------------------------------------------------------------ jobs among one another

  ghost predicate Restores(jobs: seq<Job>, job: Job, input: InputArtifact) {
    && input.producerJob in job.dependencies
    && exists p :: p in jobs && p.name == input.producerJob && p.outputArtifact == input.artifact
  }

  /** Dependencies name jobs; each restored artifact is exactly what a dependency publishes. */
  ghost predicate EdgesOk(jobs: seq<Job>, job: Job) {
    && (forall d | d in job.dependencies :: d in Names(jobs))
    && (forall input | input in job.inputArtifacts && input.Configured() :: Restores(jobs, job, input))
  }

  ghost predicate RestoredFrom(job: Job, producer: Job) {
    exists input :: input in job.inputArtifacts && input.Configured() && input.producerJob == producer.name
                    && input.artifact == producer.outputArtifact
  }

  /** The resource is written at that path by the job itself or by a dependency whose artifact is restored. */
  ghost predicate Supplied(jobs: seq<Job>, job: Job, c: ResourceSpec) {
    exists p :: p in jobs && c in p.produces
                && (p.name == job.name || (p.name in job.dependencies && RestoredFrom(job, p)))
  }

  ghost predicate ResourcesOk(jobs: seq<Job>, job: Job) {
    && (forall s | s in job.produces :: s.path in job.outputArtifact.paths)
    && (forall c | c in job.consumes :: Supplied(jobs, job, c))
  }

  /** What an accepted pipeline satisfies. */
  ghost predicate WellFormed(jobs: seq<Job>) {
    && UniqueNames(jobs)
    && (forall job | job in jobs :: JobOk(job))
    && (forall job | job in jobs :: EdgesOk(jobs, job))
    && Indexable(AllProduced(jobs))
    && (forall job | job in jobs :: ResourcesOk(jobs, job))
    && Acyclic(JobGraph(jobs))
  }

  /** What each verdict says about the pipeline; only one of them accepts. */
  ghost predicate VerdictMeans(jobs: seq<Job>, v: Verdict) {
    match v
    case Accepted => WellFormed(jobs)
    case DuplicateName(name) => !UniqueNames(jobs) && name in Names(jobs)
    case MalformedJob(name) => exists job :: job in jobs && job.name == name && !JobOk(job)
    case BadEdges(name) => exists job :: job in jobs && job.name == name && !EdgesOk(jobs, job)
    case UnindexableResources => !Indexable(AllProduced(jobs))
    case BadResources(name) => exists job :: job in jobs && job.name == name && !ResourcesOk(jobs, job)
    case CyclicAt(name) => Reaches(JobGraph(jobs), name, name)
  }

  lemma WellFormedIsClosed(jobs: seq<Job>)
    requires WellFormed(jobs)
    ensures ClosedJobs(jobs) && Closed(JobGraph(jobs))
  {
    hide JobOk;
    forall i, d | 0 <= i < |jobs| && d in jobs[i].dependencies ensures d in Names(jobs) {
      assert EdgesOk(jobs, jobs[i]);
    }
    ClosedJobsClosedGraph(jobs);
  }

  // ------------------------------------------------------------ names and edges

  ghost predicate ByName(byName: map<string, Job>, jobs: seq<Job>) {
    && byName.Keys == Elements(Names(jobs))
    && forall n | n in byName :: byName[n] in jobs && byName[n].name == n
  }

  method IndexByName(jobs: seq<Job>) returns (failure: Option<Verdict>, byName: map<string, Job>)
    ensures failure.Some? ==> !failure.value.Accepted? && VerdictMeans(jobs, failure.value)
    ensures failure.None? ==> UniqueNames(jobs) && ByName(byName, jobs) && forall job | job in jobs :: JobOk(job)
  {
    failure, byName := None, map[];
    for i := 0 to |jobs|
      invariant UniqueNames(jobs[..i]) && ByName(byName, jobs[..i])
      invariant forall job | job in jobs[..i] :: JobOk(job)
    {
      var job := jobs[i];
      NamesSnoc(jobs, i);
      ElementsSnoc(Names(jobs[..i]), job.name);
      assert jobs[..i + 1] == jobs[..i] + [job];
      assert Names(jobs)[i] == job.name;
      if job.name in byName {
        RepeatedName(jobs, i);
        return Some(DuplicateName(job.name)), byName;
      }
      if !JobOk(job) {
        return Some(MalformedJob(job.name)), byName;
      }
      assert job.name !in Names(jobs[..i]);
      byName := byName[job.name := job];
    }
    assert jobs[..|jobs|] == jobs;
  }

  lemma RepeatedName(jobs: seq<Job>, i: nat)
    requires i < |jobs| && jobs[i].name in Names(jobs[..i])
    ensures !UniqueNames(jobs)
  {
    var a :| 0 <= a < i && Names(jobs[..i])[a] == jobs[i].name;
    assert Names(jobs)[a] == Names(jobs)[i];
  }

  lemma NameDecides(jobs: seq<Job>, a: Job, b: Job)
    requires UniqueNames(jobs) && a in jobs && b in jobs && a.name == b.name
    ensures a == b
  {
    var i :| 0 <= i < |jobs| && jobs[i] == a;
    var j :| 0 <= j < |jobs| && jobs[j] == b;
    assert Names(jobs)[i] == Names(jobs)[j];
  }

  method CheckEdges(jobs: seq<Job>, job: Job, byName: map<string, Job>) returns (ok: bool)
    requires UniqueNames(jobs) && ByName(byName, jobs) && (forall j | j in jobs :: JobOk(j))
    ensures ok <==> EdgesOk(jobs, job)
  {
    var dependencies: set<string> := {};
    for k := 0 to |job.dependencies|
      invariant dependencies == Elements(job.dependencies[..k])
      invariant forall d | d in job.dependencies[..k] :: d in Names(jobs)
    {
      var dep := job.dependencies[k];
      assert job.dependencies[..k + 1] == job.dependencies[..k] + [dep];
      ElementsSnoc(job.dependencies[..k], dep);
      if dep == "" {
        EmptyNamesNothing(jobs);
        return false;
      }
      if dep !in byName {
        return false;
      }
      dependencies := dependencies + {dep};
    }
    assert job.dependencies[..|job.dependencies|] == job.dependencies;
    for k := 0 to |job.inputArtifacts|
      invariant forall input | input in job.inputArtifacts[..k] && input.Configured() :: Restores(jobs, job, input)
    {
      var input := job.inputArtifacts[k];
      assert job.inputArtifacts[..k + 1] == job.inputArtifacts[..k] + [input];
      if !input.Configured() {
        continue;
      }
      if input.producerJob !in byName || input.producerJob !in dependencies {
        return false;
      }
      if byName[input.producerJob].outputArtifact != input.artifact {
        NotRestored(jobs, job, input, byName[input.producerJob]);
        return false;
      }
      assert Restores(jobs, job, input);
    }
    assert job.inputArtifacts[..|job.inputArtifacts|] == job.inputArtifacts;
    return true;
  }

  lemma EmptyNamesNothing(jobs: seq<Job>)
    requires forall job | job in jobs :: JobOk(job)
    ensures "" !in Names(jobs)
  {
    forall i | 0 <= i < |jobs| ensures Names(jobs)[i] != "" {
      assert JobOk(jobs[i]);
    }
  }

  lemma NotRestored(jobs: seq<Job>, job: Job, input: InputArtifact, producer: Job)
    requires UniqueNames(jobs) && producer in jobs && producer.name == input.producerJob
    requires producer.outputArtifact != input.artifact
    ensures !Restores(jobs, job, input)
  {
    if Restores(jobs, job, input) {
      var p :| p in jobs && p.name == input.producerJob && p.outputArtifact == input.artifact;
      NameDecides(jobs, p, producer);
    }
  }

  // ------------------------------------------------------------ resources

  method CheckProducts(job: Job) returns (ok: bool)
    ensures ok <==> forall s | s in job.produces :: s.path in job.outputArtifact.paths
  {
    var paths := set p | p in job.outputArtifact.paths;
    for k := 0 to |job.produces|
      invariant forall s | s in job.produces[..k] :: s.path in job.outputArtifact.paths
    {
      assert job.produces[..k + 1] == job.produces[..k] + [job.produces[k]];
      if job.produces[k].path !in paths {
        assert job.produces[k] in job.produces;
        return false;
      }
    }
    assert job.produces[..|job.produces|] == job.produces;
    return true;
  }

  ghost predicate InputsByProducer(inputs: map<string, InputArtifact>, job: Job, k: nat)
    requires k <= |job.inputArtifacts|
  {
    && (forall n | n in inputs ::
          inputs[n] in job.inputArtifacts && inputs[n].Configured() && inputs[n].producerJob == n)
    && (forall i | 0 <= i < k && job.inputArtifacts[i].Configured() :: job.inputArtifacts[i].producerJob in inputs)
  }

  /** The last input of a producer wins, as in the original; its edges being in order, any will do. */
  method CollectByProducer(job: Job) returns (inputs: map<string, InputArtifact>)
    ensures InputsByProducer(inputs, job, |job.inputArtifacts|)
  {
    inputs := map[];
    for k := 0 to |job.inputArtifacts|
      invariant InputsByProducer(inputs, job, k)
    {
      if job.inputArtifacts[k].Configured() {
        inputs := inputs[job.inputArtifacts[k].producerJob := job.inputArtifacts[k]];
      }
    }
  }

  method CheckConsumed(jobs: seq<Job>, job: Job, byName: map<string, Job>, index: ResourceIndex) returns (ok: bool)
    requires UniqueNames(jobs) && ByName(byName, jobs) && EdgesOk(jobs, job)
    requires IndexOf(index, AllProduced(jobs))
    ensures ok <==> forall c | c in job.consumes :: Supplied(jobs, job, c)
  {
    var dependencies := Elements(job.dependencies);
    var inputs := CollectByProducer(job);
    for k := 0 to |job.consumes|
      invariant forall c | c in job.consumes[..k] :: Supplied(jobs, job, c)
    {
      var c := job.consumes[k];
      assert job.consumes[..k + 1] == job.consumes[..k] + [c];
      var supplied := c.ref in index.byRef
                      && index.byRef[c.ref].spec.path == c.path
                      && (index.byRef[c.ref].jobName == job.name
                          || (index.byRef[c.ref].jobName in byName
                              && index.byRef[c.ref].jobName in dependencies
                              && index.byRef[c.ref].jobName in inputs
                              && inputs[index.byRef[c.ref].jobName].artifact
                                 == byName[index.byRef[c.ref].jobName].outputArtifact));
      SuppliedByIndexed(jobs, job, byName, index, inputs, c);
      if !supplied {
        return false;
      }
    }
    assert job.consumes[..|job.consumes|] == job.consumes;
    return true;
  }

  lemma SuppliedByIndexed(jobs: seq<Job>, job: Job, byName: map<string, Job>, index: ResourceIndex,
                          inputs: map<string, InputArtifact>, c: ResourceSpec)
    requires UniqueNames(jobs) && ByName(byName, jobs) && EdgesOk(jobs, job)
    requires IndexOf(index, AllProduced(jobs)) && InputsByProducer(inputs, job, |job.inputArtifacts|)
    ensures Supplied(jobs, job, c) <==>
            c.ref in index.byRef && index.byRef[c.ref].spec.path == c.path
            && (index.byRef[c.ref].jobName == job.name
                || (index.byRef[c.ref].jobName in byName && index.byRef[c.ref].jobName in job.dependencies
                    && index.byRef[c.ref].jobName in inputs
                    && inputs[index.byRef[c.ref].jobName].artifact ==
                       byName[index.byRef[c.ref].jobName].outputArtifact))
  {
    if Supplied(jobs, job, c) {
      var p :| p in jobs && c in p.produces
               && (p.name == job.name || (p.name in job.dependencies && RestoredFrom(job, p)));
      var product := ProducedResource(c, p.name, p.outputArtifact);
      ProducedComesFromJob(jobs, product);
      assert index.byRef[c.ref] == product;
      if p.name != job.name {
        assert p.name in byName;
        NameDecides(jobs, p, byName[p.name]);
        var input :| input in job.inputArtifacts && input.Configured() && input.producerJob == p.name
                     && input.artifact == p.outputArtifact;
        assert p.name in inputs;
        OnlyItsArtifact(jobs, job, inputs[p.name], p);
      }
    }
    if c.ref in index.byRef && index.byRef[c.ref].spec.path == c.path {
      var product := index.byRef[c.ref];
      ProducedComesFromJob(jobs, product);
      var p :| p in jobs && product.spec in p.produces && product.jobName == p.name
          && product.artifact == p.outputArtifact;
      assert product.spec == c;
      if product.jobName in byName {
        NameDecides(jobs, p, byName[product.jobName]);
        if product.jobName in inputs && inputs[product.jobName].artifact == byName[product.jobName].outputArtifact {
          assert RestoredFrom(job, p);
        }
      }
    }
  }

  lemma OnlyItsArtifact(jobs: seq<Job>, job: Job, input: InputArtifact, producer: Job)
    requires UniqueNames(jobs) && EdgesOk(jobs, job) && producer in jobs
    requires input in job.inputArtifacts && input.Configured() && input.producerJob == producer.name
    ensures input.artifact == producer.outputArtifact
  {
    assert Restores(jobs, job, input);
    var p :| p in jobs && p.name == input.producerJob && p.outputArtifact == input.artifact;
    NameDecides(jobs, p, producer);
  }

  // ------------------------------------------------------------ the three-colour search

  datatype Mark = Visiting | Visited

  class JobVisitor {
    const graph: Graph
    var state: map<string, Mark>
    ghost var stack: seq<string>
    ghost var finished: seq<string>

    ghost predicate Valid()
      reads this
    {
      && Closed(graph)
      && (stack != [] ==> Walk(graph, stack))
      && (forall n :: n in stack <==> n in state && state[n] == Visiting)
      && (forall n :: n in finished <==> n in state && state[n] == Visited)
      && DependenciesFirst(graph, finished)
      && state.Keys <= graph.nodes
    }

    constructor (g: Graph)
      requires Closed(g)
      ensures Valid() && graph == g && stack == [] && finished == []
    {
      graph := g;
      state, stack, finished := map[], [], [];
    }

    /** Visit a job; an answer names a job that lies on a cycle. */
    method Visit(name: string) returns (cycle: Option<string>)
      requires Valid() && name in graph.nodes
      requires stack != [] ==> Edge(graph, stack[|stack| - 1], name)
      modifies this
      ensures cycle.Some? ==> Reaches(graph, cycle.value, cycle.value)
      ensures cycle.None? ==> Valid() && stack == old(stack) && old(state.Keys) <= state.Keys
      ensures cycle.None? ==> name in finished && forall x | x in old(finished) :: x in finished
      decreases |graph.nodes - state.Keys|, 2
    {
      if name in state {
        if state[name] == Visiting {
          BackEdge(graph, stack, name);
          return Some(name);
        }
        return None;
      }
      cycle := Explore(name);
    }

    /** Visit a job met for the first time. */
    method Explore(name: string) returns (cycle: Option<string>)
      requires Valid() && name in graph.nodes && name !in state
      requires stack != [] ==> Edge(graph, stack[|stack| - 1], name)
      modifies this
      ensures cycle.Some? ==> Reaches(graph, cycle.value, cycle.value)
      ensures cycle.None? ==> Valid() && stack == old(stack) && old(state.Keys) <= state.Keys
      ensures cycle.None? ==> name in finished && forall x | x in old(finished) :: x in finished
      decreases |graph.nodes - state.Keys|, 1
    {
      hide Valid, Reaches, Edge;
      ghost var outer := stack;
      Push(name);
      assert state.Keys == old(state.Keys) + {name};
      OneMoreLeavesFewer(graph.nodes, old(state.Keys), state.Keys, name);
      cycle := VisitDependencies(name);
      if cycle.Some? {
        return;
      }
      PopFinished(name, outer);
    }

    method Push(name: string)
      requires Valid() && name in graph.nodes && name !in state
      requires stack != [] ==> Edge(graph, stack[|stack| - 1], name)
      modifies this
      ensures Valid() && stack == old(stack) + [name] && finished == old(finished)
      ensures state == old(state)[name := Visiting] && name !in old(stack) && state.Keys <= graph.nodes
    {
      if stack != [] {
        WalkSnoc(graph, stack, name);
      }
      state := state[name := Visiting];
      stack := stack + [name];
    }

    method PopFinished(name: string, ghost outer: seq<string>)
      requires Valid() && stack == outer + [name] && name !in outer
      requires forall v | v in Succ(graph, name) :: v in finished
      modifies this
      ensures Valid() && stack == outer && finished == old(finished) + [name]
      ensures state == old(state)[name := Visited]
    {
      if outer != [] {
        WalkSlice(graph, stack, 0, |outer|);
        assert stack[0..|outer|] == outer;
      }
      OrderedSnoc(graph, finished, name);
      state := state[name := Visited];
      stack := outer;
      finished := finished + [name];
    }

    method VisitDependencies(name: string) returns (cycle: Option<string>)
      requires Valid() && stack != [] && stack[|stack| - 1] == name
      modifies this
      ensures cycle.Some? ==> Reaches(graph, cycle.value, cycle.value)
      ensures cycle.None? ==> Valid() && stack == old(stack) && old(state.Keys) <= state.Keys
      ensures cycle.None? ==> forall v | v in Succ(graph, name) :: v in finished
      ensures cycle.None? ==> forall x | x in old(finished) :: x in finished
      decreases |graph.nodes - state.Keys|, 3
    {
      var deps := Succ(graph, name);
      for k := 0 to |deps|
        invariant Valid() && stack == old(stack) && old(state.Keys) <= state.Keys
        invariant forall v | v in deps[..k] :: v in finished
        invariant forall x | x in old(finished) :: x in finished
      {
        assert deps[..k + 1] == deps[..k] + [deps[k]];
        assert Edge(graph, name, deps[k]);
        assert graph.nodes - state.Keys <= graph.nodes - old(state.Keys);
        SubsetIsNoLarger(graph.nodes - state.Keys, graph.nodes - old(state.Keys));
        cycle := Visit(deps[k]);
        if cycle.Some? {
          return;
        }
      }
      assert deps[..|deps|] == deps;
      cycle := None;
    }
  }

  lemma BackEdge(g: Graph, stack: seq<string>, name: string)
    requires stack != [] ==> Walk(g, stack) && Edge(g, stack[|stack| - 1], name)
    requires name in stack
    ensures Reaches(g, name, name)
  {
    var i :| 0 <= i < |stack| && stack[i] == name;
    if i < |stack| - 1 {
      WalkReaches(g, stack, i, |stack| - 1);
    }
    ReachThenStep(g, name, stack[|stack| - 1], name);
  }

  /** Accepts exactly acyclic job graphs, repeated and self dependencies included. */
  method ValidateAcyclic(jobs: seq<Job>) returns (cycle: Option<string>)
    requires UniqueNames(jobs) && ClosedJobs(jobs)
    ensures cycle.None? <==> Acyclic(JobGraph(jobs))
    ensures cycle.Some? ==> Reaches(JobGraph(jobs), cycle.value, cycle.value)
  {
    ClosedJobsClosedGraph(jobs);
    var visitor := new JobVisitor(JobGraph(jobs));
    for i := 0 to |jobs|
      invariant visitor.Valid() && visitor.graph == JobGraph(jobs) && visitor.stack == [] && fresh(visitor)
      invariant forall n | n in Names(jobs[..i]) :: n in visitor.finished
    {
      NamesSnoc(jobs, i);
      assert Names(jobs)[i] == jobs[i].name;
      cycle := visitor.Visit(jobs[i].name);
      if cycle.Some? {
        return;
      }
    }
    assert jobs[..|jobs|] == jobs;
    OrderedIsAcyclic(JobGraph(jobs), visitor.finished);
    cycle := None;
  }

  // ------------------------------------------------------------ validation

  method CheckAllEdges(jobs: seq<Job>, byName: map<string, Job>) returns (failure: Option<Verdict>)
    requires UniqueNames(jobs) && ByName(byName, jobs) && (forall j | j in jobs :: JobOk(j))
    ensures failure.Some? ==> !failure.value.Accepted? && VerdictMeans(jobs, failure.value)
    ensures failure.None? ==> forall job | job in jobs :: EdgesOk(jobs, job)
  {
    failure := None;
    for i := 0 to |jobs|
      invariant forall job | job in jobs[..i] :: EdgesOk(jobs, job)
    {
      assert jobs[..i + 1] == jobs[..i] + [jobs[i]];
      var ok := CheckEdges(jobs, jobs[i], byName);
      if !ok {
        return Some(BadEdges(jobs[i].name));
      }
    }
    assert jobs[..|jobs|] == jobs;
  }

  method CheckAllResources(jobs: seq<Job>, byName: map<string, Job>) returns (failure: Option<Verdict>)
    requires UniqueNames(jobs) && ByName(byName, jobs) && (forall job | job in jobs :: EdgesOk(jobs, job))
    ensures failure.Some? ==> !failure.value.Accepted? && VerdictMeans(jobs, failure.value)
    ensures failure.None? ==> Indexable(AllProduced(jobs)) && forall job | job in jobs :: ResourcesOk(jobs, job)
  {
    var index := BuildResourceIndex(jobs);
    if index.None? {
      return Some(UnindexableResources);
    }
    failure := None;
    for i := 0 to |jobs|
      invariant forall job | job in jobs[..i] :: ResourcesOk(jobs, job)
    {
      assert jobs[..i + 1] == jobs[..i] + [jobs[i]];
      var produced := CheckProducts(jobs[i]);
      if !produced {
        return Some(BadResources(jobs[i].name));
      }
      var consumed := CheckConsumed(jobs, jobs[i], byName, index.value);
      if !consumed {
        return Some(BadResources(jobs[i].name));
      }
    }
    assert jobs[..|jobs|] == jobs;
  }

  method Validate(jobs: seq<Job>) returns (verdict: Verdict)
    ensures VerdictMeans(jobs, verdict)
    ensures verdict.Accepted? <==> WellFormed(jobs)
  {
    var failure, byName := IndexByName(jobs);
    if failure.Some? {
      return failure.value;
    }
    failure := CheckAllEdges(jobs, byName);
    if failure.Some? {
      return failure.value;
    }
    failure := CheckAllResources(jobs, byName);
    if failure.Some? {
      return failure.value;
    }
    forall i, d | 0 <= i < |jobs| && d in jobs[i].dependencies ensures d in Names(jobs) {
      assert EdgesOk(jobs, jobs[i]);
    }
    var cycle := ValidateAcyclic(jobs);
    if cycle.Some? {
      return CyclicAt(cycle.value);
    }
    verdict := Accepted;
  }
}
