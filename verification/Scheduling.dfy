/**
 The scheduler: groups of jobs separated by barriers, obtained by releasing layer after layer.
 In-degrees count repeated dependencies as often as they are listed.
 */
module Scheduling {
  import opened Options
  import opened Digraph
  import opened InDegree
  import opened PipelineIR

  /** Group `index` is named dag-level-<index>. */
  datatype JobGroup = JobGroup(index: nat, jobs: seq<Job>)

  datatype ScheduleResult =
    | Scheduled(groups: seq<JobGroup>)
    | DuplicateJob(name: string)
    | UnknownDependency(job: string, dependency: string)
    | Unschedulable(remaining: seq<string>)

  // ------------------------------------------------------------ what a schedule is

  /** Group i holds, in IR order, exactly the jobs whose longest dependency chain has i edges. */
  ghost predicate GroupsAre(jobs: seq<Job>, groups: seq<JobGroup>) {
    var g := JobGraph(jobs);
    GroupsSoFar(jobs, groups) && Done(g, |groups|) == g.nodes
  }

  ghost predicate GroupsSoFar(jobs: seq<Job>, groups: seq<JobGroup>) {
    forall i: nat | i < |groups| ::
      groups[i] == JobGroup(i, FilterJobs(jobs, Layer(JobGraph(jobs), i))) && groups[i].jobs != []
  }

  ghost predicate FirstDuplicate(jobs: seq<Job>, j: int, name: string) {
    && 0 <= j < |jobs| && jobs[j].name == name
    && name in Names(jobs[..j]) && UniqueNames(jobs[..j])
  }

  /** Dependency k of job i is the first in reading order that names no job. */
  ghost predicate FirstUnknown(jobs: seq<Job>, i: int, k: int, job: string, dependency: string) {
    && 0 <= i < |jobs| && 0 <= k < |jobs[i].dependencies|
    && jobs[i].name == job && jobs[i].dependencies[k] == dependency && dependency !in Names(jobs)
    && (forall d | d in jobs[i].dependencies[..k] :: d in Names(jobs))
    && (forall a, d | 0 <= a < i && d in jobs[a].dependencies :: d in Names(jobs))
  }

  ghost function CycleBound(jobs: seq<Job>): set<string> {
    set n | n in JobGraph(jobs).nodes && SeesCycle(JobGraph(jobs), n)
  }

  /** What the scheduler's answer says about the jobs; the cases exclude one another. */
  ghost predicate Outcome(jobs: seq<Job>, r: ScheduleResult) {
    match r
    case DuplicateJob(name) =>
      exists j :: FirstDuplicate(jobs, j, name)
    case UnknownDependency(job, dependency) =>
      UniqueNames(jobs) && exists i, k :: FirstUnknown(jobs, i, k, job, dependency)
    case Unschedulable(remaining) =>
      && UniqueNames(jobs) && ClosedJobs(jobs) && !Acyclic(JobGraph(jobs))
      && remaining == Names(FilterJobs(jobs, CycleBound(jobs)))
    case Scheduled(groups) =>
      UniqueNames(jobs) && ClosedJobs(jobs) && Acyclic(JobGraph(jobs)) && GroupsAre(jobs, groups)
  }

  /** The scheduler succeeds exactly on uniquely named, closed, acyclic job lists. */
  lemma OutcomeDecides(jobs: seq<Job>, r: ScheduleResult)
    requires Outcome(jobs, r)
    ensures r.Scheduled? <==> UniqueNames(jobs) && ClosedJobs(jobs) && Acyclic(JobGraph(jobs))
  {
    match r
    case DuplicateJob(name) =>
      var j :| FirstDuplicate(jobs, j, name);
      var a :| 0 <= a < j && Names(jobs[..j])[a] == name;
      assert Names(jobs)[a] == Names(jobs)[j];
    case UnknownDependency(job, dependency) =>
      var i, k :| FirstUnknown(jobs, i, k, job, dependency);
      assert jobs[i].dependencies[k] in jobs[i].dependencies;
    case Unschedulable(remaining) =>
    case Scheduled(groups) =>
  }

  /** Every job lies in exactly one group, and its index is the length of its longest chain. */
  lemma ScheduledOnceAtChainLength(jobs: seq<Job>, groups: seq<JobGroup>, job: Job, i: nat)
    requires Outcome(jobs, Scheduled(groups)) && job in jobs && i < |groups|
    ensures job in groups[i].jobs <==> job.name in Layer(JobGraph(jobs), i)
    ensures job in groups[i].jobs <==>
            (exists p :: WalkFrom(JobGraph(jobs), p, job.name) && |p| == i + 1) &&
            (forall p | WalkFrom(JobGraph(jobs), p, job.name) :: |p| <= i + 1)
    ensures exists k: nat :: k < |groups| && job in groups[k].jobs
  {
    var g := JobGraph(jobs);
    ClosedJobsClosedGraph(jobs);
    var a :| 0 <= a < |jobs| && jobs[a] == job;
    JobGraphEdges(jobs, a);
    LayerIsLongestChain(g, i, job.name);
    var k := ReleasedInSomeLayer(g, |groups|, job.name);
    assert job in groups[k].jobs;
  }

  lemma {:induction false} ReleasedInSomeLayer(g: Graph, k: nat, u: string) returns (i: nat)
    requires u in Done(g, k)
    ensures i < k && u in Layer(g, i)
  {
    if u in Done(g, k - 1) {
      i := ReleasedInSomeLayer(g, k - 1, u);
    } else {
      i := k - 1;
    }
  }

  /** Each dependency of a scheduled job lies in an earlier group. */
  lemma DependenciesInEarlierGroups(jobs: seq<Job>, groups: seq<JobGroup>, i: nat, job: Job, d: string)
    requires Outcome(jobs, Scheduled(groups)) && i < |groups| && job in groups[i].jobs && d in job.dependencies
    ensures exists k: nat, dep :: k < i && dep in groups[k].jobs && dep.name == d
  {
    var g := JobGraph(jobs);
    var a :| 0 <= a < |jobs| && jobs[a] == job;
    JobGraphEdges(jobs, a);
    assert Edge(g, job.name, d);
    assert job.name in Layer(g, i);
    var k := ReleasedInSomeLayer(g, i, d);
    assert d in Names(jobs);
    var b :| 0 <= b < |jobs| && Names(jobs)[b] == d;
    assert jobs[b] in groups[k].jobs;
  }

  /** No other layering that respects the dependencies uses fewer groups or puts a job earlier. */
  lemma ScheduleIsOptimal(jobs: seq<Job>, groups: seq<JobGroup>, lambda: map<string, nat>, bound: nat)
    requires Outcome(jobs, Scheduled(groups)) && lambda.Keys == JobGraph(jobs).nodes
    requires forall x, y | x in JobGraph(jobs).nodes && Edge(JobGraph(jobs), x, y) ::
             y in lambda && lambda[y] < lambda[x]
    requires forall n | n in lambda :: lambda[n] < bound
    ensures |groups| <= bound
    ensures forall i: nat, job | i < |groups| && job in groups[i].jobs :: job.name in lambda && i <= lambda[job.name]
  {
    var g := JobGraph(jobs);
    ClosedJobsClosedGraph(jobs);
    forall i: nat, job | i < |groups| && job in groups[i].jobs
      ensures job.name in lambda && i <= lambda[job.name]
    {
      LayersAreEarliest(g, lambda, job.name, i);
    }
    if groups != [] {
      var last := |groups| - 1;
      assert groups[last].jobs[0] in groups[last].jobs;
    }
  }

  // ------------------------------------------------------------ the scheduler's tables

  function Look(m: map<string, seq<string>>, k: string): seq<string> {
    if k in m then m[k] else []
  }

  /** How often n is listed among the dependents of d. */
  ghost function Mentions(m: map<string, seq<string>>, d: string, n: string): nat {
    multiset(Look(m, d))[n]
  }

  /** dependents lists every job in seen once per mention of the dependency. */
  ghost predicate Wired(g: Graph, dependents: map<string, seq<string>>, seen: set<string>) {
    forall d, n :: Mentions(dependents, d, n) == if n in seen then multiset(Succ(g, n))[d] else 0
  }

  /** Compared with before, name is listed once more for each of the given dependencies. */
  ghost predicate WiredMore(after: map<string, seq<string>>, before: map<string, seq<string>>, name: string,
                            deps: seq<string>)
  {
    forall d, n :: Mentions(after, d, n) == Mentions(before, d, n) + if n == name then multiset(deps)[d] else 0
  }

  lemma WireNone(before: map<string, seq<string>>, name: string)
    ensures WiredMore(before, before, name, [])
  {
  }

  lemma WireOne(after: map<string, seq<string>>, before: map<string, seq<string>>, name: string, deps: seq<string>,
                dep: string)
    requires WiredMore(after, before, name, deps)
    ensures WiredMore(after[dep := Look(after, dep) + [name]], before, name, deps + [dep])
  {
    var next := after[dep := Look(after, dep) + [name]];
    forall d, n ensures Mentions(next, d, n) == Mentions(after, d, n) + if n == name && d == dep then 1 else 0 {
    }
  }

  lemma WireWhole(g: Graph, after: map<string, seq<string>>, before: map<string, seq<string>>, seen: set<string>,
                  name: string)
    requires Wired(g, before, seen) && name !in seen && WiredMore(after, before, name, Succ(g, name))
    ensures Wired(g, after, seen + {name})
  {
  }

  ghost predicate DegreesMatch(g: Graph, indegree: map<string, int>, done: set<string>) {
    indegree.Keys == g.nodes && forall n | n in indegree :: indegree[n] == CountOutside(Succ(g, n), done)
  }

  ghost predicate PendingAre(jobs: seq<Job>, pending: map<string, Job>, names: set<string>) {
    && pending.Keys == names
    && forall n | n in pending :: pending[n] in jobs && pending[n].name == n
  }

  method IndexJobs(jobs: seq<Job>)
    returns (duplicate: Option<string>, pending: map<string, Job>, indegree: map<string, int>, order: seq<string>)
    ensures duplicate.Some? ==> exists j :: FirstDuplicate(jobs, j, duplicate.value)
    ensures duplicate.None? ==>
              && UniqueNames(jobs) && order == Names(jobs)
              && PendingAre(jobs, pending, JobGraph(jobs).nodes)
              && indegree.Keys == JobGraph(jobs).nodes && forall n | n in indegree :: indegree[n] == 0
  {
    duplicate, pending, indegree, order := None, map[], map[], [];
    for i := 0 to |jobs|
      invariant UniqueNames(jobs[..i]) && order == Names(jobs[..i])
      invariant PendingAre(jobs, pending, Elements(order))
      invariant indegree.Keys == Elements(order) && forall n | n in indegree :: indegree[n] == 0
    {
      var name := jobs[i].name;
      NamesSnoc(jobs, i);
      if name in pending {
        assert FirstDuplicate(jobs, i, name);
        duplicate := Some(name);
        return;
      }
      assert name !in Elements(order);
      ElementsSnoc(order, name);
      pending := pending[name := jobs[i]];
      indegree := indegree[name := 0];
      order := order + [name];
    }
    assert jobs[..|jobs|] == jobs;
  }

  /** Enter the dependencies of one job; stops at the first unknown one. */
  method WireJob(name: string, deps: seq<string>, known: set<string>,
                 dependents0: map<string, seq<string>>, indegree0: map<string, int>)
    returns (unknown: Option<nat>, dependents: map<string, seq<string>>, indegree: map<string, int>)
    requires name in indegree0
    ensures unknown.Some? ==>
              unknown.value < |deps| && deps[unknown.value] !in known &&
              forall d | d in deps[..unknown.value] :: d in known
    ensures unknown.None? ==>
              && (forall d | d in deps :: d in known)
              && indegree == indegree0[name := indegree0[name] + |deps|]
              && WiredMore(dependents, dependents0, name, deps)
  {
    hide WiredMore, Mentions;
    unknown, dependents, indegree := None, dependents0, indegree0;
    WireNone(dependents0, name);
    for k := 0 to |deps|
      invariant forall d | d in deps[..k] :: d in known
      invariant indegree == indegree0[name := indegree0[name] + k]
      invariant WiredMore(dependents, dependents0, name, deps[..k])
    {
      assert deps[..k + 1] == deps[..k] + [deps[k]];
      if deps[k] !in known {
        return Some(k), dependents, indegree;
      }
      WireOne(dependents, dependents0, name, deps[..k], deps[k]);
      dependents := dependents[deps[k] := Look(dependents, deps[k]) + [name]];
      indegree := indegree[name := indegree[name] + 1];
    }
    assert deps[..|deps|] == deps;
  }

  /** done with the first i of the given jobs. */
  ghost function Out(done: set<string>, jobs: seq<Job>, i: nat): set<string>
    requires i <= |jobs|
  {
    done + Elements(Names(jobs[..i]))
  }

  lemma OutGrows(done: set<string>, jobs: seq<Job>, i: nat)
    requires UniqueNames(jobs) && i < |jobs|
    ensures Out(done, jobs, i + 1) == Out(done, jobs, i) + {jobs[i].name}
    ensures jobs[i].name !in done ==> jobs[i].name !in Out(done, jobs, i)
  {
    NamesSnoc(jobs, i);
    ElementsSnoc(Names(jobs[..i]), jobs[i].name);
    NotYetReleased(jobs, i);
  }

  method WireJobs(jobs: seq<Job>, known: set<string>, indegree0: map<string, int>)
    returns (unknown: Option<(string, string)>, dependents: map<string, seq<string>>, indegree: map<string, int>)
    requires UniqueNames(jobs) && known == JobGraph(jobs).nodes
    requires indegree0.Keys == known && forall n | n in indegree0 :: indegree0[n] == 0
    ensures unknown.Some? ==> exists i, k :: FirstUnknown(jobs, i, k, unknown.value.0, unknown.value.1)
    ensures unknown.None? ==>
              ClosedJobs(jobs) && Wired(JobGraph(jobs), dependents, known) && DegreesMatch(JobGraph(jobs), indegree, {})
  {
    hide Wired, WiredMore, Mentions, FirstUnknown, DegreesEntered, DependencyMap, UniqueNames, DependenciesKnown;
    ghost var g := JobGraph(jobs);
    unknown, dependents, indegree := None, map[], indegree0;
    NothingEntered(g, indegree);
    assert Out({}, jobs, 0) == {};
    NothingKnown(jobs);
    for i := 0 to |jobs|
      invariant DependenciesKnown(jobs, i)
      invariant Wired(g, dependents, Out({}, jobs, i))
      invariant DegreesEntered(g, indegree, Out({}, jobs, i))
    {
      var job := jobs[i];
      JobGraphEdges(jobs, i);
      OutGrows({}, jobs, i);
      ghost var before, degrees := dependents, indegree;
      DegreeKept(g, indegree, Out({}, jobs, i), job.name);
      var k;
      k, dependents, indegree := WireJob(job.name, job.dependencies, known, dependents, indegree);
      if k.Some? {
        UnknownFound(jobs, i, k.value);
        unknown := Some((job.name, job.dependencies[k.value]));
        return;
      }
      KnownSoFar(jobs, i);
      EnterDegree(g, degrees, Out({}, jobs, i), job.name);
      WireWhole(g, dependents, before, Out({}, jobs, i), job.name);
    }
    assert jobs[..|jobs|] == jobs && Out({}, jobs, |jobs|) == known;
    EnteredMatch(g, indegree);
    AllKnown(jobs);
  }

  ghost predicate DegreesEntered(g: Graph, indegree: map<string, int>, seen: set<string>) {
    indegree.Keys == g.nodes && forall n | n in indegree :: indegree[n] == if n in seen then |Succ(g, n)| else 0
  }

  ghost predicate DependenciesKnown(jobs: seq<Job>, n: nat)
    requires n <= |jobs|
  {
    forall a, d | 0 <= a < n && d in jobs[a].dependencies :: d in Names(jobs)
  }

  lemma NothingKnown(jobs: seq<Job>)
    ensures DependenciesKnown(jobs, 0)
  {
  }

  lemma AllKnown(jobs: seq<Job>)
    requires DependenciesKnown(jobs, |jobs|)
    ensures ClosedJobs(jobs)
  {
  }

  lemma KnownSoFar(jobs: seq<Job>, i: nat)
    requires i < |jobs| && DependenciesKnown(jobs, i) && forall d | d in jobs[i].dependencies :: d in Names(jobs)
    ensures DependenciesKnown(jobs, i + 1)
  {
  }

  lemma UnknownFound(jobs: seq<Job>, i: nat, k: nat)
    requires i < |jobs| && k < |jobs[i].dependencies| && jobs[i].dependencies[k] !in Names(jobs)
    requires forall d | d in jobs[i].dependencies[..k] :: d in Names(jobs)
    requires DependenciesKnown(jobs, i)
    ensures FirstUnknown(jobs, i, k, jobs[i].name, jobs[i].dependencies[k])
  {
  }

  lemma NothingEntered(g: Graph, indegree: map<string, int>)
    requires indegree.Keys == g.nodes && forall n | n in indegree :: indegree[n] == 0
    ensures DegreesEntered(g, indegree, {}) && Wired(g, map[], {})
  {
  }

  lemma DegreeKept(g: Graph, indegree: map<string, int>, seen: set<string>, name: string)
    requires DegreesEntered(g, indegree, seen) && name in g.nodes && name !in seen
    ensures name in indegree && indegree[name] == 0
  {
  }

  lemma EnterDegree(g: Graph, indegree: map<string, int>, seen: set<string>, name: string)
    requires DegreesEntered(g, indegree, seen) && name in g.nodes && name !in seen
    ensures DegreesEntered(g, indegree[name := |Succ(g, name)|], seen + {name})
  {
  }

  lemma EnteredMatch(g: Graph, indegree: map<string, int>)
    requires DegreesEntered(g, indegree, g.nodes)
    ensures DegreesMatch(g, indegree, {})
  {
    forall n | n in g.nodes ensures |Succ(g, n)| == CountOutside(Succ(g, n), {}) {
      AllOutside(Succ(g, n));
    }
  }

  // ------------------------------------------------------------ layers

  /** The pending jobs whose in-degree is zero, in IR order. */
  method NextLayer(jobs: seq<Job>, order: seq<string>, pending: map<string, Job>, indegree: map<string, int>,
                   ghost groups: seq<JobGroup>)
    returns (layer: seq<Job>)
    requires UniqueNames(jobs) && order == Names(jobs) && RoundState(jobs, groups, pending, indegree)
    ensures layer == FilterJobs(jobs, Layer(JobGraph(jobs), |groups|))
  {
    ghost var g, k := JobGraph(jobs), |groups|;
    layer := [];
    for i := 0 to |order|
      invariant layer == FilterJobs(jobs[..i], Layer(g, k))
    {
      var name := order[i];
      FilterJobsSnoc(jobs, i, Layer(g, k));
      JobGraphEdges(jobs, i);
      NoneOutside(Succ(g, name), Done(g, k));
      assert forall v :: Edge(g, name, v) <==> v in Succ(g, name);
      if name in pending && indegree[name] == 0 {
        UniqueJob(jobs, i, pending[name]);
        layer := layer + [pending[name]];
      }
    }
    assert jobs[..|jobs|] == jobs;
  }

  lemma UniqueJob(jobs: seq<Job>, i: nat, job: Job)
    requires UniqueNames(jobs) && i < |jobs| && job in jobs && job.name == jobs[i].name
    ensures job == jobs[i]
  {
    var a :| 0 <= a < |jobs| && jobs[a] == job;
    assert Names(jobs)[a] == Names(jobs)[i];
  }

  /** Lower the in-degree of every listed dependent, as often as it is listed. */
  method LowerAll(dependents: seq<string>, indegree0: map<string, int>) returns (indegree: map<string, int>)
    requires forall d | d in dependents :: d in indegree0
    ensures indegree.Keys == indegree0.Keys
    ensures forall n | n in indegree0 :: indegree[n] == indegree0[n] - multiset(dependents)[n]
  {
    indegree := indegree0;
    for k := 0 to |dependents|
      invariant indegree.Keys == indegree0.Keys
      invariant forall n | n in indegree0 :: indegree[n] == indegree0[n] - multiset(dependents[..k])[n]
    {
      assert dependents[..k + 1] == dependents[..k] + [dependents[k]];
      indegree := indegree[dependents[k] := indegree[dependents[k]] - 1];
    }
    assert dependents[..|dependents|] == dependents;
  }

  /** Take a layer out of the tables. */
  method ReleaseLayer(jobs: seq<Job>, layer: seq<Job>, dependents: map<string, seq<string>>,
                      pending0: map<string, Job>, indegree0: map<string, int>, ghost done: set<string>)
    returns (pending: map<string, Job>, indegree: map<string, int>)
    requires UniqueNames(layer)
    requires var g := JobGraph(jobs);
             && Wired(g, dependents, g.nodes) && DegreesMatch(g, indegree0, done)
             && PendingAre(jobs, pending0, g.nodes - done)
             && forall n | n in Names(layer) :: n in pending0
    ensures var g := JobGraph(jobs);
            var done' := done + Elements(Names(layer));
            && DegreesMatch(g, indegree, done') && PendingAre(jobs, pending, g.nodes - done')
            && |pending| == |pending0| - |layer|
  {
    hide DegreesMatch, Wired, UniqueNames, JobGraph;
    ghost var g := JobGraph(jobs);
    pending, indegree := pending0, indegree0;
    assert Out(done, layer, 0) == done;
    for i := 0 to |layer|
      invariant DegreesMatch(g, indegree, Out(done, layer, i))
      invariant PendingAre(jobs, pending, g.nodes - Out(done, layer, i))
      invariant |pending| == |pending0| - i
    {
      OutGrows(done, layer, i);
      assert Names(layer)[i] in pending0;
      pending, indegree := ReleaseJob(jobs, layer[i].name, dependents, pending, indegree, Out(done, layer, i));
    }
    assert layer[..|layer|] == layer;
  }

  method ReleaseJob(jobs: seq<Job>, name: string, dependents: map<string, seq<string>>,
                    pending0: map<string, Job>, indegree0: map<string, int>, ghost out: set<string>)
    returns (pending: map<string, Job>, indegree: map<string, int>)
    requires Wired(JobGraph(jobs), dependents, JobGraph(jobs).nodes) && name in pending0
    requires DegreesMatch(JobGraph(jobs), indegree0, out) && PendingAre(jobs, pending0, JobGraph(jobs).nodes - out)
    ensures DegreesMatch(JobGraph(jobs), indegree, out + {name})
    ensures PendingAre(jobs, pending, JobGraph(jobs).nodes - (out + {name})) && |pending| == |pending0| - 1
  {
    ghost var g := JobGraph(jobs);
    assert name !in out;
    RemoveKey(pending0, name);
    pending := pending0 - {name};
    DependentsAreJobs(g, dependents, name);
    PendingWithout(jobs, pending0, g.nodes, out, name);
    indegree := LowerAll(Look(dependents, name), indegree0);
    DegreesAfterRelease(g, dependents, indegree0, indegree, out, name);
  }

  lemma DependentsAreJobs(g: Graph, dependents: map<string, seq<string>>, name: string)
    requires Wired(g, dependents, g.nodes)
    ensures forall d | d in Look(dependents, name) :: d in g.nodes
  {
    forall d | d in Look(dependents, name) ensures d in g.nodes {
      assert Mentions(dependents, name, d) > 0;
    }
  }

  lemma PendingWithout(jobs: seq<Job>, pending: map<string, Job>, nodes: set<string>, out: set<string>, name: string)
    requires PendingAre(jobs, pending, nodes - out)
    ensures PendingAre(jobs, pending - {name}, nodes - (out + {name}))
  {
  }

  lemma DegreesAfterRelease(g: Graph, dependents: map<string, seq<string>>, before: map<string, int>,
                            after: map<string, int>, out: set<string>, name: string)
    requires Wired(g, dependents, g.nodes) && DegreesMatch(g, before, out) && name !in out
    requires after.Keys == before.Keys
    requires forall n | n in before :: after[n] == before[n] - multiset(Look(dependents, name))[n]
    ensures DegreesMatch(g, after, out + {name})
  {
    forall n | n in after ensures after[n] == CountOutside(Succ(g, n), out + {name}) {
      CountAfterRelease(Succ(g, n), out, name);
      assert Mentions(dependents, name, n) == multiset(Succ(g, n))[name];
    }
  }

  lemma NotYetReleased(layer: seq<Job>, i: nat)
    requires UniqueNames(layer) && i < |layer|
    ensures layer[i].name !in Names(layer[..i])
  {
    assert Names(layer)[i] == layer[i].name;
    assert forall a | 0 <= a < i :: Names(layer[..i])[a] == Names(layer)[a];
  }

  lemma RemoveKey<T>(m: map<string, T>, k: string)
    requires k in m
    ensures |m - {k}| == |m| - 1
    ensures (m - {k}).Keys == m.Keys - {k}
  {
    assert (m - {k}).Keys == m.Keys - {k};
    assert |m.Keys - {k}| == |m.Keys| - 1;
  }

  // ------------------------------------------------------------ the scheduler

  ghost predicate RoundState(jobs: seq<Job>, groups: seq<JobGroup>, pending: map<string, Job>,
                             indegree: map<string, int>)
  {
    var g := JobGraph(jobs);
    && PendingAre(jobs, pending, g.nodes - Done(g, |groups|))
    && DegreesMatch(g, indegree, Done(g, |groups|))
    && GroupsSoFar(jobs, groups)
  }

  method Schedule(jobs: seq<Job>) returns (r: ScheduleResult)
    ensures Outcome(jobs, r)
  {
    hide Wired, FirstUnknown, FirstDuplicate, FilterJobs, ClosedJobs, UniqueNames;
    hide RoundState, PendingAre, DegreesMatch, GroupsAre, CycleBound, Acyclic, Names;
    var duplicate, pending, indegree, order := IndexJobs(jobs);
    if duplicate.Some? {
      return DuplicateJob(duplicate.value);
    }
    var unknown, dependents;
    unknown, dependents, indegree := WireJobs(jobs, pending.Keys, indegree);
    if unknown.Some? {
      return UnknownDependency(unknown.value.0, unknown.value.1);
    }
    FirstRound(jobs, pending, indegree);
    var groups, scheduled;
    groups, scheduled, pending := ReleaseAll(jobs, order, dependents, pending, indegree);
    if scheduled != |order| {
      var remaining := RemainingNames(jobs, order, pending);
      return Unschedulable(remaining);
    }
    r := Scheduled(groups);
  }

  /** The rounds of the scheduler, until no pending job is ready. */
  method ReleaseAll(jobs: seq<Job>, order: seq<string>, dependents: map<string, seq<string>>,
                    pending0: map<string, Job>, indegree0: map<string, int>)
    returns (groups: seq<JobGroup>, scheduled: nat, pending: map<string, Job>)
    requires UniqueNames(jobs) && ClosedJobs(jobs) && order == Names(jobs)
    requires Wired(JobGraph(jobs), dependents, JobGraph(jobs).nodes)
    requires RoundState(jobs, [], pending0, indegree0) && |pending0| == |order|
    ensures scheduled == |order| - |pending| && pending.Keys == CycleBound(jobs)
    ensures |pending| == 0 <==> Acyclic(JobGraph(jobs))
    ensures |pending| == 0 ==> GroupsAre(jobs, groups)
  {
    hide Wired, DependencyMap, FilterJobs, ClosedJobs, UniqueNames, RoundState, GroupsAre, CycleBound, Acyclic;
    groups, scheduled, pending := [], 0, pending0;
    var indegree := indegree0;
    var layer := NextLayer(jobs, order, pending, indegree, groups);
    while |layer| != 0
      invariant RoundState(jobs, groups, pending, indegree)
      invariant layer == FilterJobs(jobs, Layer(JobGraph(jobs), |groups|))
      invariant scheduled == |order| - |pending|
      decreases |pending|
    {
      scheduled := scheduled + |layer|;
      pending, indegree := ReleaseRound(jobs, groups, layer, dependents, pending, indegree);
      groups := groups + [JobGroup(|groups|, layer)];
      layer := NextLayer(jobs, order, pending, indegree, groups);
    }
    Exhausted(jobs, groups, pending, indegree);
  }

  /** Record a layer as the next group and take it out of the tables. */
  method ReleaseRound(jobs: seq<Job>, ghost groups: seq<JobGroup>, layer: seq<Job>,
                      dependents: map<string, seq<string>>, pending0: map<string, Job>, indegree0: map<string, int>)
    returns (pending: map<string, Job>, indegree: map<string, int>)
    requires UniqueNames(jobs) && Wired(JobGraph(jobs), dependents, JobGraph(jobs).nodes)
    requires RoundState(jobs, groups, pending0, indegree0)
    requires layer == FilterJobs(jobs, Layer(JobGraph(jobs), |groups|)) && layer != []
    ensures RoundState(jobs, groups + [JobGroup(|groups|, layer)], pending, indegree)
    ensures |pending| == |pending0| - |layer|
  {
    ghost var k := |groups|;
    LayerReleases(jobs, k, pending0);
    pending, indegree := ReleaseLayer(jobs, layer, dependents, pending0, indegree0, Done(JobGraph(jobs), k));
    RoundAfter(jobs, groups, layer, pending, indegree);
  }

  lemma RoundAfter(jobs: seq<Job>, groups: seq<JobGroup>, layer: seq<Job>, pending: map<string, Job>,
                   indegree: map<string, int>)
    requires GroupsSoFar(jobs, groups) && layer != []
    requires layer == FilterJobs(jobs, Layer(JobGraph(jobs), |groups|))
    requires PendingAre(jobs, pending, JobGraph(jobs).nodes - Done(JobGraph(jobs), |groups| + 1))
    requires DegreesMatch(JobGraph(jobs), indegree, Done(JobGraph(jobs), |groups| + 1))
    ensures RoundState(jobs, groups + [JobGroup(|groups|, layer)], pending, indegree)
  {
    hide DegreesMatch, PendingAre, FilterJobs, JobGraph, Layer, Done;
    var next := groups + [JobGroup(|groups|, layer)];
    forall i: nat | i < |next|
      ensures next[i] == JobGroup(i, FilterJobs(jobs, Layer(JobGraph(jobs), i))) && next[i].jobs != []
    {
    }
  }

  lemma FirstRound(jobs: seq<Job>, pending: map<string, Job>, indegree: map<string, int>)
    requires UniqueNames(jobs) && PendingAre(jobs, pending, JobGraph(jobs).nodes)
    requires DegreesMatch(JobGraph(jobs), indegree, {})
    ensures RoundState(jobs, [], pending, indegree) && |pending| == |jobs|
  {
    DistinctCount(Names(jobs));
  }

  lemma LayerReleases(jobs: seq<Job>, k: nat, pending: map<string, Job>)
    requires UniqueNames(jobs) && PendingAre(jobs, pending, JobGraph(jobs).nodes - Done(JobGraph(jobs), k))
    ensures var g := JobGraph(jobs);
            var layer := FilterJobs(jobs, Layer(g, k));
            && UniqueNames(layer) && (forall n | n in Names(layer) :: n in pending)
            && Done(g, k) + Elements(Names(layer)) == Done(g, k + 1)
  {
    hide Done, FilterJobs, DependencyMap, UniqueNames;
    var g := JobGraph(jobs);
    FilterJobsUnique(jobs, Layer(g, k));
    DoneGrows(g, k, k + 1);
    var layer := FilterJobs(jobs, Layer(g, k));
    forall n ensures n in Done(g, k) + Elements(Names(layer)) <==> n in Done(g, k + 1) {
      assert n in Layer(g, k) <==> n in Done(g, k + 1) && n !in Done(g, k);
      assert n in Done(g, k + 1) ==> n in Names(jobs);
    }
  }

  lemma NothingReady(jobs: seq<Job>, k: nat)
    requires UniqueNames(jobs) && FilterJobs(jobs, Layer(JobGraph(jobs), k)) == []
    ensures Layer(JobGraph(jobs), k) == {}
  {
    var layer := Layer(JobGraph(jobs), k);
    DoneGrows(JobGraph(jobs), k + 1, k + 1);
    FilterJobsUnique(jobs, layer);
    assert forall n :: n in layer ==> n in Names(FilterJobs(jobs, layer));
  }

  /** When no job is ready, what is pending is exactly what sees a cycle. */
  lemma Exhausted(jobs: seq<Job>, groups: seq<JobGroup>, pending: map<string, Job>, indegree: map<string, int>)
    requires UniqueNames(jobs) && ClosedJobs(jobs) && RoundState(jobs, groups, pending, indegree)
    requires FilterJobs(jobs, Layer(JobGraph(jobs), |groups|)) == []
    ensures pending.Keys == CycleBound(jobs)
    ensures |pending| == 0 <==> Acyclic(JobGraph(jobs))
    ensures |pending| == 0 ==> GroupsAre(jobs, groups)
  {
    hide FilterJobs, Done, DependencyMap, SeesCycle, Acyclic, ClosedJobs, UniqueNames, DegreesMatch, Closed, Names;
    NothingReady(jobs, |groups|);
    ClosedJobsClosedGraph(jobs);
    UnreleasedAreBound(JobGraph(jobs), |groups|);
    assert |pending| == 0 <==> pending.Keys == {};
  }

  lemma UnreleasedAreBound(g: Graph, k: nat)
    requires Closed(g) && Layer(g, k) == {}
    ensures g.nodes - Done(g, k) == set n | n in g.nodes && SeesCycle(g, n)
    ensures Acyclic(g) <==> Done(g, k) == g.nodes
    ensures Done(g, k) <= g.nodes
  {
    DoneGrows(g, k, k);
    EmptyLayerIsLast(g, k);
    forall n | n in g.nodes ensures n !in Done(g, k) <==> SeesCycle(g, n) {
      UnreleasedIffSeesCycle(g, n);
    }
    AcyclicIffAllReleased(g);
  }

  lemma NothingFiltered(jobs: seq<Job>, keys: set<string>)
    ensures Names(FilterJobs(jobs[..0], keys)) == []
  {
  }

  lemma RemainingSnoc(jobs: seq<Job>, i: nat, keys: set<string>)
    requires i < |jobs|
    ensures Names(FilterJobs(jobs[..i + 1], keys)) ==
            Names(FilterJobs(jobs[..i], keys)) + if Names(jobs)[i] in keys then [Names(jobs)[i]] else []
  {
    FilterJobsSnoc(jobs, i, keys);
    NamesConcat(FilterJobs(jobs[..i], keys), [jobs[i]]);
    assert Names([jobs[i]]) == [jobs[i].name];
  }

  method RemainingNames(jobs: seq<Job>, order: seq<string>, pending: map<string, Job>) returns (remaining: seq<string>)
    requires order == Names(jobs)
    ensures remaining == Names(FilterJobs(jobs, pending.Keys))
  {
    hide FilterJobs, Names;
    remaining := [];
    NothingFiltered(jobs, pending.Keys);
    for i := 0 to |order|
      invariant remaining == Names(FilterJobs(jobs[..i], pending.Keys))
    {
      RemainingSnoc(jobs, i, pending.Keys);
      if order[i] in pending {
        remaining := remaining + [order[i]];
      }
    }
    assert jobs[..|jobs|] == jobs;
  }
}
