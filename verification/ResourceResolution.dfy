/**
 Indexing the resources jobs produce and resolving requests for them into concrete resources,
 input artifacts and dependencies of the requesting job.
 */
module ResourceResolution {
  import opened Options
  import opened Digraph
  import opened PipelineIR
  import opened WorkspacePaths
  import opened Text

  datatype ProducedResource = ProducedResource(spec: ResourceSpec, jobName: string, artifact: Artifact)

  datatype ResolvedResource = ResolvedResource(resource: ProducedResource, optional: bool)

  datatype ResourceIndex = ResourceIndex(byRef: map<ResourceRef, ProducedResource>, all: seq<ProducedResource>)

  // ------------------------------------------------------------ kinds, requests, matching

  predicate IsPlanKind(kind: ResourceKind) {
    kind == PlanBinary || kind == PlanText || kind == PlanJson
  }

  predicate IsDetailedPlanKind(kind: ResourceKind) {
    kind == PlanText || kind == PlanJson
  }

  predicate IsPluginKind(kind: ResourceKind) {
    kind == PluginResult || kind == PluginReport
  }

  predicate ProducerNameOk(producer: string) {
    (exists c | c in producer :: !IsSpace(c)) && '/' !in producer && '\\' !in producer
  }

  /** A request's scope fits its kind and carries exactly the selector that the scope calls for. */
  predicate RequestOk(r: ResourceRequest) {
    match r.scope
    case AllModules => IsPlanKind(r.kind) && r.modulePath == "" && r.producer == ""
    case OneModule => IsPlanKind(r.kind) && ValidPath(r.modulePath) && r.producer == ""
    case AllProducers => IsPluginKind(r.kind) && r.modulePath == "" && r.producer == ""
    case OneProducer => IsPluginKind(r.kind) && r.modulePath == "" && ProducerNameOk(r.producer)
    case NoScope => false
  }

  predicate ResourceMatches(r: ResourceRequest, ref: ResourceRef) {
    r.kind == ref.kind &&
    match r.scope
    case OneModule => ref.modulePath == r.modulePath
    case OneProducer => ref.producer == r.producer
    case AllModules => ref.modulePath != ""
    case AllProducers => ref.producer != ""
    case NoScope => false
  }

  predicate EmptyAllowed(r: ResourceRequest, allowEmptyModules: bool) {
    allowEmptyModules && r.scope == AllModules && IsPlanKind(r.kind)
  }

  /** The request selects p, which another job than the consumer produces. */
  predicate Selects(r: ResourceRequest, p: ProducedResource, consumer: string) {
    p.jobName != consumer && ResourceMatches(r, p.spec.ref)
  }

  // ------------------------------------------------------------ the index

  function ProducedBy(job: Job): (r: seq<ProducedResource>)
    ensures |r| == |job.produces|
    ensures forall i | 0 <= i < |r| :: r[i] == ProducedResource(job.produces[i], job.name, job.outputArtifact)
  {
    seq(|job.produces|, i requires 0 <= i < |job.produces| =>
          ProducedResource(job.produces[i], job.name, job.outputArtifact))
  }

  function AllProduced(jobs: seq<Job>): seq<ProducedResource> {
    if jobs == [] then [] else AllProduced(jobs[..|jobs| - 1]) + ProducedBy(jobs[|jobs| - 1])
  }

  lemma AllProducedSnoc(jobs: seq<Job>, k: nat)
    requires k < |jobs|
    ensures AllProduced(jobs[..k + 1]) == AllProduced(jobs[..k]) + ProducedBy(jobs[k])
    ensures jobs[..|jobs|] == jobs
  {
    assert jobs[..k + 1][..k] == jobs[..k];
  }

  predicate Publishable(p: ProducedResource) {
    p.spec.ref.kind != NoKind && p.spec.path != "" && p.artifact.Configured()
  }

  ghost predicate DistinctRefs(all: seq<ProducedResource>) {
    forall i, j | 0 <= i < j < |all| :: all[i].spec.ref != all[j].spec.ref
  }

  /** Every product can be published and no resource has two producers. */
  ghost predicate Indexable(all: seq<ProducedResource>) {
    (forall p | p in all :: Publishable(p)) && DistinctRefs(all)
  }

  ghost predicate IndexOf(index: ResourceIndex, all: seq<ProducedResource>) {
    && index.all == all && DistinctRefs(all)
    && (forall p | p in all :: p.spec.ref in index.byRef && index.byRef[p.spec.ref] == p)
    && (forall ref | ref in index.byRef :: index.byRef[ref] in all && index.byRef[ref].spec.ref == ref)
  }

  lemma {:induction false} ProducedComesFromJob(jobs: seq<Job>, p: ProducedResource)
    ensures p in AllProduced(jobs) <==>
            exists job :: job in jobs && p.spec in job.produces && p.jobName == job.name
                   && p.artifact == job.outputArtifact
  {
    if jobs != [] {
      var init, last := jobs[..|jobs| - 1], jobs[|jobs| - 1];
      ProducedComesFromJob(init, p);
      assert jobs == init + [last];
      if p in ProducedBy(last) {
        assert last in jobs;
      }
      if job :| job in jobs && p.spec in job.produces && p.jobName == job.name && p.artifact == job.outputArtifact {
        if job == last {
          var i :| 0 <= i < |job.produces| && job.produces[i] == p.spec;
          assert ProducedBy(last)[i] == p;
        }
      }
    }
  }

  lemma IndexablePrefix(a: seq<ProducedResource>, b: seq<ProducedResource>)
    requires Indexable(a + b)
    ensures Indexable(a)
  {
    assert forall i | 0 <= i < |a| :: (a + b)[i] == a[i];
    assert forall p | p in a :: p in a + b;
  }

  lemma IndexOne(index: ResourceIndex, p: ProducedResource)
    requires IndexOf(index, index.all) && Indexable(index.all)
    ensures Indexable(index.all + [p]) <==> Publishable(p) && p.spec.ref !in index.byRef
    ensures p.spec.ref !in index.byRef ==>
              IndexOf(ResourceIndex(index.byRef[p.spec.ref := p], index.all + [p]), index.all + [p])
  {
    var all := index.all + [p];
    assert all[|index.all|] == p;
    if p.spec.ref in index.byRef {
      var a :| 0 <= a < |index.all| && index.all[a] == index.byRef[p.spec.ref];
      assert all[a].spec.ref == all[|index.all|].spec.ref;
    } else {
      forall i | 0 <= i < |index.all| ensures all[i].spec.ref != p.spec.ref {
        assert index.all[i] in index.all;
      }
    }
  }

  /** Fails exactly when some product cannot be published or a resource has two producers. */
  method BuildResourceIndex(jobs: seq<Job>) returns (r: Option<ResourceIndex>)
    ensures r.Some? <==> Indexable(AllProduced(jobs))
    ensures r.Some? ==> IndexOf(r.value, AllProduced(jobs)) && r.value.all == AllProduced(jobs)
  {
    var index := ResourceIndex(map[], []);
    for i := 0 to |jobs|
      invariant IndexOf(index, AllProduced(jobs[..i])) && Indexable(AllProduced(jobs[..i]))
    {
      AllProducedSnoc(jobs, i);
      var added := AddProducts(jobs[i], index);
      if added.None? {
        NotIndexable(jobs, i + 1);
        return None;
      }
      index := added.value;
    }
    assert jobs[..|jobs|] == jobs;
    r := Some(index);
  }

  method AddProducts(job: Job, index0: ResourceIndex) returns (r: Option<ResourceIndex>)
    requires IndexOf(index0, index0.all) && Indexable(index0.all)
    ensures r.Some? <==> Indexable(index0.all + ProducedBy(job))
    ensures r.Some? ==> IndexOf(r.value, index0.all + ProducedBy(job))
  {
    var index := index0;
    var products := ProducedBy(job);
    assert index0.all + products[..0] == index0.all;
    for k := 0 to |products|
      invariant IndexOf(index, index0.all + products[..k]) && Indexable(index0.all + products[..k])
    {
      var resource := products[k];
      assert index0.all + products[..k + 1] == index.all + [resource];
      assert index0.all + products == index.all + [resource] + products[k + 1..];
      IndexOne(index, resource);
      if !Publishable(resource) || resource.spec.ref in index.byRef {
        if Indexable(index0.all + products) {
          IndexablePrefix(index.all + [resource], products[k + 1..]);
        }
        return None;
      }
      index := ResourceIndex(index.byRef[resource.spec.ref := resource], index.all + [resource]);
    }
    assert products[..|products|] == products;
    r := Some(index);
  }

  lemma {:induction false} NotIndexable(jobs: seq<Job>, k: nat)
    requires k <= |jobs| && !Indexable(AllProduced(jobs[..k]))
    ensures !Indexable(AllProduced(jobs))
    decreases |jobs| - k
  {
    if k < |jobs| {
      AllProducedSnoc(jobs, k);
      if Indexable(AllProduced(jobs[..k + 1])) {
        IndexablePrefix(AllProduced(jobs[..k]), ProducedBy(jobs[k]));
      }
      NotIndexable(jobs, k + 1);
    } else {
      assert jobs[..k] == jobs;
    }
  }

  // ------------------------------------------------------------ resolving requests

  datatype Resolution =
    | Resolution(specs: seq<ResourceSpec>, resources: seq<ResolvedResource>)
    | InvalidRequest(request: ResourceRequest)
    | Unavailable(request: ResourceRequest)

  ghost predicate SelectedByAny(requests: seq<ResourceRequest>, p: ProducedResource, consumer: string) {
    exists r :: r in requests && Selects(r, p, consumer)
  }

  /** No request that selects p insists on it. */
  ghost predicate OptionalForAll(requests: seq<ResourceRequest>, p: ProducedResource, consumer: string) {
    forall r :: r in requests && Selects(r, p, consumer) ==> r.optional
  }

  ghost predicate HasMatch(r: ResourceRequest, all: seq<ProducedResource>, consumer: string) {
    exists p :: p in all && Selects(r, p, consumer)
  }

  ghost predicate Satisfied(r: ResourceRequest, all: seq<ProducedResource>, consumer: string, allowEmpty: bool) {
    HasMatch(r, all, consumer) || r.optional || EmptyAllowed(r, allowEmpty)
  }

  ghost predicate Listed(resources: seq<ResolvedResource>, p: ProducedResource) {
    exists k :: 0 <= k < |resources| && resources[k].resource == p
  }

  /** Exactly the resources some request selects, each once, optional when no request insists. */
  ghost predicate ResolvedAre(resources: seq<ResolvedResource>, requests: seq<ResourceRequest>,
                              all: seq<ProducedResource>, consumer: string)
  {
    && (forall i, j | 0 <= i < j < |resources| :: resources[i].resource != resources[j].resource)
    && (forall p :: Listed(resources, p) <==> p in all && SelectedByAny(requests, p, consumer))
    && (forall k | 0 <= k < |resources| ::
          resources[k].optional <==> OptionalForAll(requests, resources[k].resource, consumer))
  }

  function Specs(resources: seq<ResolvedResource>): (r: seq<ResourceSpec>)
    ensures |r| == |resources| && forall i | 0 <= i < |r| :: r[i] == resources[i].resource.spec
  {
    seq(|resources|, i requires 0 <= i < |resources| => resources[i].resource.spec)
  }

  method MatchingResources(r: ResourceRequest, all: seq<ProducedResource>, consumer: string)
    returns (matches: seq<ProducedResource>)
    requires DistinctRefs(all)
    ensures DistinctRefs(matches)
    ensures forall p :: p in matches <==> p in all && Selects(r, p, consumer)
  {
    matches := [];
    for k := 0 to |all|
      invariant DistinctRefs(matches)
      invariant forall p :: p in matches <==> p in all[..k] && Selects(r, p, consumer)
    {
      assert all[..k + 1] == all[..k] + [all[k]];
      if all[k].jobName != consumer {
        if ResourceMatches(r, all[k].spec.ref) {
          assert forall p | p in all[..k] :: p.spec.ref != all[k].spec.ref;
          matches := matches + [all[k]];
        }
      }
    }
    assert all[..|all|] == all;
  }

  /** seen maps the reference of every resource listed to its position. */
  ghost predicate SeenAre(seen: map<ResourceRef, nat>, resources: seq<ResolvedResource>) {
    && (forall k | 0 <= k < |resources| ::
          resources[k].resource.spec.ref in seen && seen[resources[k].resource.spec.ref] == k)
    && (forall ref | ref in seen :: seen[ref] < |resources| && resources[seen[ref]].resource.spec.ref == ref)
  }

  ghost predicate NoneInsists(events: seq<ResolvedResource>, p: ProducedResource) {
    forall k | 0 <= k < |events| && events[k].resource == p :: events[k].optional
  }

  /** resources lists what occurs among the selections made so far, each once, optional when all are. */
  ghost predicate Merged(resources: seq<ResolvedResource>, events: seq<ResolvedResource>) {
    && (forall p :: Listed(resources, p) <==> Listed(events, p))
    && (forall k | 0 <= k < |resources| :: resources[k].optional <==> NoneInsists(events, resources[k].resource))
  }

  function Events(matches: seq<ProducedResource>, optional: bool): (r: seq<ResolvedResource>)
    ensures |r| == |matches| && forall i | 0 <= i < |r| :: r[i] == ResolvedResource(matches[i], optional)
  {
    seq(|matches|, i requires 0 <= i < |matches| => ResolvedResource(matches[i], optional))
  }

  lemma ListedSnoc(events: seq<ResolvedResource>, e: ResolvedResource)
    ensures forall p :: Listed(events + [e], p) <==> Listed(events, p) || p == e.resource
    ensures forall p :: NoneInsists(events + [e], p) <==> NoneInsists(events, p) && (p == e.resource ==> e.optional)
  {
    var more := events + [e];
    assert more[|events|] == e;
    forall p | Listed(events, p) ensures Listed(more, p) {
      var k :| 0 <= k < |events| && events[k].resource == p;
      assert more[k].resource == p;
    }
    forall p | NoneInsists(more, p) ensures NoneInsists(events, p) {
      forall k | 0 <= k < |events| && events[k].resource == p ensures events[k].optional {
        assert more[k] == events[k];
      }
    }
  }

  lemma MergedAgain(resources: seq<ResolvedResource>, events: seq<ResolvedResource>, e: ResolvedResource, idx: nat)
    requires Merged(resources, events) && idx < |resources| && resources[idx].resource == e.resource
    requires forall k | 0 <= k < |resources| && k != idx :: resources[k].resource != e.resource
    ensures Merged(resources[idx := resources[idx].(optional := resources[idx].optional && e.optional)], events + [e])
  {
    var next := resources[idx := resources[idx].(optional := resources[idx].optional && e.optional)];
    ListedSnoc(events, e);
    assert forall k | 0 <= k < |resources| :: next[k].resource == resources[k].resource;
    forall p ensures Listed(next, p) <==> Listed(resources, p) {
      if Listed(resources, p) {
        var k :| 0 <= k < |resources| && resources[k].resource == p;
        assert next[k].resource == p;
      }
    }
    assert Listed(resources, e.resource);
  }

  lemma MergedNew(resources: seq<ResolvedResource>, events: seq<ResolvedResource>, e: ResolvedResource)
    requires Merged(resources, events) && !Listed(resources, e.resource)
    ensures Merged(resources + [e], events + [e])
  {
    ListedSnoc(events, e);
    ListedSnoc(resources, e);
    forall k | 0 <= k < |resources| ensures resources[k].resource != e.resource {
      assert Listed(resources, resources[k].resource);
    }
    assert !Listed(events, e.resource);
    forall k | 0 <= k < |events| ensures events[k].resource != e.resource {
      assert Listed(events, events[k].resource);
    }
  }

  /**
   Enter the matches of one request: those already listed become mandatory unless the request is
   optional, the others are appended.
   */
  method EnterMatches(matches: seq<ProducedResource>, optional: bool, all: seq<ProducedResource>,
                      resources0: seq<ResolvedResource>, seen0: map<ResourceRef, nat>,
                      ghost events: seq<ResolvedResource>)
    returns (resources: seq<ResolvedResource>, seen: map<ResourceRef, nat>)
    requires DistinctRefs(all) && SeenAre(seen0, resources0) && Merged(resources0, events)
    requires (forall p | p in matches :: p in all) && forall p | Listed(events, p) :: p in all
    ensures SeenAre(seen, resources) && Merged(resources, events + Events(matches, optional))
  {
    hide DistinctRefs, SeenAre, Merged, Listed;
    resources, seen := resources0, seen0;
    ghost var entering := Events(matches, optional);
    assert events + entering[..0] == events;
    for i := 0 to |matches|
      invariant SeenAre(seen, resources) && Merged(resources, events + entering[..i])
      invariant forall p | Listed(events + entering[..i], p) :: p in all
    {
      assert entering[i] == ResolvedResource(matches[i], optional);
      assert events + entering[..i + 1] == (events + entering[..i]) + [entering[i]];
      ListedSnoc(events + entering[..i], entering[i]);
      resources, seen := EnterMatch(matches[i], optional, all, resources, seen, events + entering[..i]);
    }
    assert entering[..|matches|] == entering;
  }

  method EnterMatch(p: ProducedResource, optional: bool, all: seq<ProducedResource>,
                    resources0: seq<ResolvedResource>, seen0: map<ResourceRef, nat>,
                    ghost events: seq<ResolvedResource>)
    returns (resources: seq<ResolvedResource>, seen: map<ResourceRef, nat>)
    requires DistinctRefs(all) && SeenAre(seen0, resources0) && Merged(resources0, events)
    requires p in all && forall q | Listed(events, q) :: q in all
    ensures SeenAre(seen, resources) && Merged(resources, events + [ResolvedResource(p, optional)])
  {
    hide DistinctRefs;
    resources, seen := resources0, seen0;
    if p.spec.ref in seen {
      var idx := seen[p.spec.ref];
      assert Listed(resources, resources[idx].resource);
      SameRefSame(all, resources[idx].resource, p);
      MergedAgain(resources, events, ResolvedResource(p, optional), idx);
      resources := resources[idx := resources[idx].(optional := resources[idx].optional && optional)];
    } else {
      MergedNew(resources, events, ResolvedResource(p, optional));
      seen := seen[p.spec.ref := |resources|];
      resources := resources + [ResolvedResource(p, optional)];
    }
  }

  lemma SameRefSame(all: seq<ProducedResource>, p: ProducedResource, q: ProducedResource)
    requires DistinctRefs(all) && p in all && q in all && p.spec.ref == q.spec.ref
    ensures p == q
  {
    var i :| 0 <= i < |all| && all[i] == p;
    var j :| 0 <= j < |all| && all[j] == q;
  }

  /** The selections made by the requests so far. */
  ghost predicate EventsOf(events: seq<ResolvedResource>, requests: seq<ResourceRequest>,
                           all: seq<ProducedResource>, consumer: string)
  {
    && (forall p :: Listed(events, p) <==> p in all && SelectedByAny(requests, p, consumer))
    && (forall p | p in all :: NoneInsists(events, p) <==> OptionalForAll(requests, p, consumer))
  }

  lemma EventsListed(matches: seq<ProducedResource>, optional: bool)
    ensures forall p :: Listed(Events(matches, optional), p) <==> p in matches
    ensures forall p :: NoneInsists(Events(matches, optional), p) <==> p !in matches || optional
  {
    var e := Events(matches, optional);
    forall p ensures Listed(e, p) <==> p in matches {
      if p in matches {
        var k :| 0 <= k < |matches| && matches[k] == p;
        assert e[k].resource == p;
      }
    }
    forall p ensures NoneInsists(e, p) <==> p !in matches || optional {
      if p in matches && !optional {
        var k :| 0 <= k < |matches| && matches[k] == p;
        assert e[k] == ResolvedResource(p, false);
      }
    }
  }

  lemma ListedConcat(a: seq<ResolvedResource>, b: seq<ResolvedResource>, p: ProducedResource)
    ensures Listed(a + b, p) <==> Listed(a, p) || Listed(b, p)
    ensures NoneInsists(a + b, p) <==> NoneInsists(a, p) && NoneInsists(b, p)
  {
    var c := a + b;
    assert forall k | 0 <= k < |a| :: c[k] == a[k];
    assert forall k | 0 <= k < |b| :: c[|a| + k] == b[k];
  }

  lemma EventsOfMore(events: seq<ResolvedResource>, requests: seq<ResourceRequest>, r: ResourceRequest,
                     all: seq<ProducedResource>, consumer: string, matches: seq<ProducedResource>)
    requires EventsOf(events, requests, all, consumer)
    requires forall p :: p in matches <==> p in all && Selects(r, p, consumer)
    ensures EventsOf(events + Events(matches, r.optional), requests + [r], all, consumer)
  {
    EventsListed(matches, r.optional);
    forall p
      ensures Listed(events + Events(matches, r.optional), p) <==> Listed(events, p) || p in matches
      ensures NoneInsists(events + Events(matches, r.optional), p) <==>
              NoneInsists(events, p) && (p !in matches || r.optional)
      ensures SelectedByAny(requests + [r], p, consumer) <==>
              SelectedByAny(requests, p, consumer) || Selects(r, p, consumer)
      ensures OptionalForAll(requests + [r], p, consumer) <==>
              OptionalForAll(requests, p, consumer) && (Selects(r, p, consumer) ==> r.optional)
    {
      ListedConcat(events, Events(matches, r.optional), p);
      SelectionSnoc(requests, r, p, consumer);
    }
  }

  lemma SelectionSnoc(requests: seq<ResourceRequest>, r: ResourceRequest, p: ProducedResource, consumer: string)
    ensures SelectedByAny(requests + [r], p, consumer) <==>
            SelectedByAny(requests, p, consumer) || Selects(r, p, consumer)
    ensures OptionalForAll(requests + [r], p, consumer) <==>
            OptionalForAll(requests, p, consumer) && (Selects(r, p, consumer) ==> r.optional)
  {
    var more := requests + [r];
    assert r in more;
    assert forall x :: x in more <==> x in requests || x == r;
  }

  lemma MergedIsResolved(resources: seq<ResolvedResource>, seen: map<ResourceRef, nat>, events: seq<ResolvedResource>,
                         requests: seq<ResourceRequest>, all: seq<ProducedResource>, consumer: string)
    requires SeenAre(seen, resources) && Merged(resources, events) && EventsOf(events, requests, all, consumer)
    ensures ResolvedAre(resources, requests, all, consumer)
  {
    forall k | 0 <= k < |resources|
      ensures resources[k].optional <==> OptionalForAll(requests, resources[k].resource, consumer)
    {
      assert Listed(resources, resources[k].resource);
    }
    forall i, j | 0 <= i < j < |resources| ensures resources[i].resource != resources[j].resource {
      assert seen[resources[i].resource.spec.ref] == i && seen[resources[j].resource.spec.ref] == j;
    }
  }

  /** Every request is well formed and finds what it asks for, or is allowed to find nothing. */
  ghost predicate AllSatisfied(requests: seq<ResourceRequest>, all: seq<ProducedResource>, consumer: string,
                               allowEmpty: bool)
  {
    forall r | r in requests :: RequestOk(r) && Satisfied(r, all, consumer, allowEmpty)
  }

  lemma NothingEntered(all: seq<ProducedResource>, consumer: string)
    ensures SeenAre(map[], []) && Merged([], []) && EventsOf([], [], all, consumer)
  {
  }

  lemma EventsInAll(events: seq<ResolvedResource>, requests: seq<ResourceRequest>, all: seq<ProducedResource>,
                    consumer: string)
    requires EventsOf(events, requests, all, consumer)
    ensures forall p | Listed(events, p) :: p in all
  {
  }

  lemma MatchDecides(r: ResourceRequest, matches: seq<ProducedResource>, all: seq<ProducedResource>, consumer: string,
                     allowEmpty: bool)
    requires forall p :: p in matches <==> p in all && Selects(r, p, consumer)
    ensures Satisfied(r, all, consumer, allowEmpty) <==> matches != [] || r.optional || EmptyAllowed(r, allowEmpty)
  {
    if matches != [] {
      assert matches[0] in matches;
    }
  }

  method ResolveRequests(requests: seq<ResourceRequest>, index: ResourceIndex, consumer: string, allowEmpty: bool)
    returns (result: Resolution)
    requires IndexOf(index, index.all)
    ensures result.Resolution? <==> AllSatisfied(requests, index.all, consumer, allowEmpty)
    ensures result.Resolution? ==>
              result.specs == Specs(result.resources) && ResolvedAre(result.resources, requests, index.all, consumer)
    ensures result.InvalidRequest? ==> result.request in requests && !RequestOk(result.request)
    ensures result.Unavailable? ==>
              result.request in requests && !Satisfied(result.request, index.all, consumer, allowEmpty)
  {
    var resources: seq<ResolvedResource> := [];
    var specs: seq<ResourceSpec> := [];
    var seen: map<ResourceRef, nat> := map[];
    ghost var events: seq<ResolvedResource> := [];
    NothingEntered(index.all, consumer);
    hide SeenAre, Merged, EventsOf, Satisfied, ResolvedAre, DistinctRefs;
    for i := 0 to |requests|
      invariant SeenAre(seen, resources) && Merged(resources, events)
      invariant EventsOf(events, requests[..i], index.all, consumer)
      invariant specs == Specs(resources)
      invariant forall r | r in requests[..i] :: RequestOk(r) && Satisfied(r, index.all, consumer, allowEmpty)
    {
      var r := requests[i];
      assert requests[..i + 1] == requests[..i] + [r];
      if !RequestOk(r) {
        return InvalidRequest(r);
      }
      var matches := MatchingResources(r, index.all, consumer);
      MatchDecides(r, matches, index.all, consumer, allowEmpty);
      if |matches| == 0 && !r.optional && !EmptyAllowed(r, allowEmpty) {
        return Unavailable(r);
      }
      EventsInAll(events, requests[..i], index.all, consumer);
      resources, seen := EnterMatches(matches, r.optional, index.all, resources, seen, events);
      EventsOfMore(events, requests[..i], r, index.all, consumer, matches);
      events := events + Events(matches, r.optional);
      specs := Specs(resources);
    }
    assert requests[..|requests|] == requests;
    MergedIsResolved(resources, seen, events, requests, index.all, consumer);
    result := Resolution(specs, resources);
  }

  // ------------------------------------------------------------ what a job gains

  datatype JobInputs = JobInputs(consumes: seq<ResourceSpec>, artifacts: seq<InputArtifact>, dependencies: seq<string>)

  /** The dependency is appended unless it is empty or already there. */
  function MergeDependency(deps: seq<string>, dep: string): (r: seq<string>)
    ensures forall d :: d in r <==> d in deps || (d == dep && dep != "")
    ensures Distinct(deps) ==> Distinct(r)
    ensures deps <= r
  {
    if dep == "" || dep in deps then deps else deps + [dep]
  }

  ghost predicate ArtifactFor(a: InputArtifact, resources: seq<ResolvedResource>) {
    exists k :: 0 <= k < |resources| && a.artifact == resources[k].resource.artifact
                && a.producerJob == resources[k].resource.jobName
  }

  ghost predicate AllOptional(name: string, resources: seq<ResolvedResource>) {
    forall k | 0 <= k < |resources| && resources[k].resource.artifact.name == name :: resources[k].optional
  }

  ghost predicate DistinctArtifacts(artifacts: seq<InputArtifact>) {
    forall i, j | 0 <= i < j < |artifacts| :: artifacts[i].artifact.name != artifacts[j].artifact.name
  }

  /**
   One input artifact per artifact name among the resolved resources, taken from the first that has
   it, optional when all are; one dependency per producer.
   */
  ghost predicate InputsFor(artifacts: seq<InputArtifact>, deps: seq<string>, resources: seq<ResolvedResource>) {
    && DistinctArtifacts(artifacts) && ArtifactsFor(artifacts, resources)
    && Distinct(deps) && (forall d :: d in deps <==> d != "" && Produces(resources, d))
  }

  ghost predicate CarriedBy(artifacts: seq<InputArtifact>, name: string) {
    exists a :: a in artifacts && a.artifact.name == name
  }

  ghost predicate Produces(resources: seq<ResolvedResource>, job: string) {
    exists k :: 0 <= k < |resources| && resources[k].resource.jobName == job
  }

  /** The requests select p, another job's product, for the consumer. */
  ghost predicate Chosen(p: ProducedResource, requests: seq<ResourceRequest>, all: seq<ProducedResource>,
                         consumer: string)
  {
    p in all && SelectedByAny(requests, p, consumer)
  }

  /** Every request that selects a product carried under this artifact name is optional. */
  ghost predicate NoneInsistsOn(name: string, requests: seq<ResourceRequest>, all: seq<ProducedResource>,
                                consumer: string)
  {
    forall r, p | r in requests && p in all && p.artifact.name == name && Selects(r, p, consumer) :: r.optional
  }

  /**
   What the job gains, in terms of its requests alone: it consumes exactly the products they select,
   depends on exactly their producers, and restores one of their artifacts per name, optional if and
   only if every request that selects something carried under that name is.
   */
  ghost predicate GainsExactly(inputs: JobInputs, requests: seq<ResourceRequest>, all: seq<ProducedResource>,
                               consumer: string)
  {
    && (forall spec :: spec in inputs.consumes <==> exists p :: Chosen(p, requests, all, consumer) && p.spec == spec)
    && (forall d :: d in inputs.dependencies <==>
          d != "" && exists p :: Chosen(p, requests, all, consumer) && p.jobName == d)
    && DistinctArtifacts(inputs.artifacts)
    && (forall p | Chosen(p, requests, all, consumer) :: CarriedBy(inputs.artifacts, p.artifact.name))
    && (forall a | a in inputs.artifacts ::
          && (exists p :: Chosen(p, requests, all, consumer) && a.artifact == p.artifact && a.producerJob == p.jobName)
          && (a.optional <==> NoneInsistsOn(a.artifact.name, requests, all, consumer)))
  }

  lemma ChosenAreListed(resources: seq<ResolvedResource>, requests: seq<ResourceRequest>, all: seq<ProducedResource>,
                        consumer: string)
    requires ResolvedAre(resources, requests, all, consumer)
    ensures forall k | 0 <= k < |resources| :: Chosen(resources[k].resource, requests, all, consumer)
    ensures forall p | Chosen(p, requests, all, consumer) :: Listed(resources, p)
  {
    forall k | 0 <= k < |resources| ensures Chosen(resources[k].resource, requests, all, consumer) {
      assert Listed(resources, resources[k].resource);
    }
  }

  lemma OptionalExactly(name: string, resources: seq<ResolvedResource>, requests: seq<ResourceRequest>,
                        all: seq<ProducedResource>, consumer: string)
    requires ResolvedAre(resources, requests, all, consumer)
    ensures AllOptional(name, resources) <==> NoneInsistsOn(name, requests, all, consumer)
  {
    ChosenAreListed(resources, requests, all, consumer);
    if AllOptional(name, resources) {
      forall r, p | r in requests && p in all && p.artifact.name == name && Selects(r, p, consumer) ensures r.optional {
        assert Chosen(p, requests, all, consumer);
        var k :| 0 <= k < |resources| && resources[k].resource == p;
      }
    }
    if NoneInsistsOn(name, requests, all, consumer) {
      forall k | 0 <= k < |resources| && resources[k].resource.artifact.name == name ensures resources[k].optional {
        assert Chosen(resources[k].resource, requests, all, consumer);
      }
    }
  }

  lemma SpecsExactly(resources: seq<ResolvedResource>, requests: seq<ResourceRequest>, all: seq<ProducedResource>,
                     consumer: string, spec: ResourceSpec)
    requires ResolvedAre(resources, requests, all, consumer)
    ensures spec in Specs(resources) <==> exists p :: Chosen(p, requests, all, consumer) && p.spec == spec
  {
    ChosenAreListed(resources, requests, all, consumer);
    hide ResolvedAre, Chosen;
    if p :| Chosen(p, requests, all, consumer) && p.spec == spec {
      var k :| 0 <= k < |resources| && resources[k].resource == p;
      assert Specs(resources)[k] == spec;
    }
    if spec in Specs(resources) {
      var k :| 0 <= k < |resources| && Specs(resources)[k] == spec;
      assert Chosen(resources[k].resource, requests, all, consumer);
    }
  }

  lemma ProducersExactly(resources: seq<ResolvedResource>, requests: seq<ResourceRequest>, all: seq<ProducedResource>,
                         consumer: string, d: string)
    requires ResolvedAre(resources, requests, all, consumer)
    ensures Produces(resources, d) <==> exists p :: Chosen(p, requests, all, consumer) && p.jobName == d
  {
    ChosenAreListed(resources, requests, all, consumer);
    hide ResolvedAre, Chosen;
    if p :| Chosen(p, requests, all, consumer) && p.jobName == d {
      assert Listed(resources, p);
    }
    if Produces(resources, d) {
      var k :| 0 <= k < |resources| && resources[k].resource.jobName == d;
      assert Chosen(resources[k].resource, requests, all, consumer);
    }
  }

  lemma ArtifactsExactly(artifacts: seq<InputArtifact>, resources: seq<ResolvedResource>,
                         requests: seq<ResourceRequest>, all: seq<ProducedResource>, consumer: string)
    requires ResolvedAre(resources, requests, all, consumer) && ArtifactsFor(artifacts, resources)
    ensures forall p | Chosen(p, requests, all, consumer) :: CarriedBy(artifacts, p.artifact.name)
    ensures forall a | a in artifacts ::
              && (exists p :: Chosen(p, requests, all, consumer) && a.artifact == p.artifact
                    && a.producerJob == p.jobName)
              && (a.optional <==> NoneInsistsOn(a.artifact.name, requests, all, consumer))
  {
    ChosenAreListed(resources, requests, all, consumer);
    hide ResolvedAre, Chosen, NoneInsistsOn, AllOptional, CarriedBy;
    forall p | Chosen(p, requests, all, consumer) ensures CarriedBy(artifacts, p.artifact.name) {
      var k :| 0 <= k < |resources| && resources[k].resource == p;
    }
    forall a | a in artifacts
      ensures exists p :: Chosen(p, requests, all, consumer) && a.artifact == p.artifact && a.producerJob == p.jobName
      ensures a.optional <==> NoneInsistsOn(a.artifact.name, requests, all, consumer)
    {
      assert ArtifactFor(a, resources);
      var k :| 0 <= k < |resources| && a.artifact == resources[k].resource.artifact
               && a.producerJob == resources[k].resource.jobName;
      assert Chosen(resources[k].resource, requests, all, consumer);
      OptionalExactly(a.artifact.name, resources, requests, all, consumer);
    }
  }

  lemma InputsGainExactly(inputs: JobInputs, resources: seq<ResolvedResource>, requests: seq<ResourceRequest>,
                          all: seq<ProducedResource>, consumer: string)
    requires ResolvedAre(resources, requests, all, consumer) && inputs.consumes == Specs(resources)
    requires InputsFor(inputs.artifacts, inputs.dependencies, resources)
    ensures GainsExactly(inputs, requests, all, consumer)
  {
    hide ResolvedAre, Chosen, NoneInsistsOn, Produces, ArtifactsFor, DistinctArtifacts, CarriedBy, Specs;
    forall spec
      ensures spec in Specs(resources) <==> exists p :: Chosen(p, requests, all, consumer) && p.spec == spec
    {
      SpecsExactly(resources, requests, all, consumer, spec);
    }
    forall d ensures Produces(resources, d) <==> exists p :: Chosen(p, requests, all, consumer) && p.jobName == d {
      ProducersExactly(resources, requests, all, consumer, d);
    }
    ArtifactsExactly(inputs.artifacts, resources, requests, all, consumer);
  }

  method ResolveForJob(requests: seq<ResourceRequest>, index: ResourceIndex, jobName: string, allowEmpty: bool)
    returns (result: Option<JobInputs>, ghost resources: seq<ResolvedResource>)
    requires IndexOf(index, index.all) && forall p | p in index.all :: Publishable(p)
    ensures result.Some? <==> AllSatisfied(requests, index.all, jobName, allowEmpty)
    ensures result.Some? ==>
              && ResolvedAre(resources, requests, index.all, jobName)
              && result.value.consumes == Specs(resources)
              && InputsFor(result.value.artifacts, result.value.dependencies, resources)
              && GainsExactly(result.value, requests, index.all, jobName)
  {
    var resolution := ResolveRequests(requests, index, jobName, allowEmpty);
    if !resolution.Resolution? {
      return None, [];
    }
    var produced := resolution.resources;
    resources := produced;
    var artifacts, deps := CollectInputs(produced);
    result := Some(JobInputs(resolution.specs, artifacts, deps));
    InputsGainExactly(result.value, resources, requests, index.all, jobName);
  }

  /**
   The consumer's own products were never matched and every indexed product has an artifact, so the
   two guards of the original against those cases never fire and are not repeated here.
   */
  method CollectInputs(produced: seq<ResolvedResource>) returns (artifacts: seq<InputArtifact>, deps: seq<string>)
    ensures InputsFor(artifacts, deps, produced)
  {
    artifacts, deps := [], [];
    var seen: map<string, nat> := map[];
    for i := 0 to |produced|
      invariant SeenNames(seen, artifacts) && DistinctArtifacts(artifacts)
      invariant ArtifactsFor(artifacts, produced[..i])
      invariant Distinct(deps) && forall d :: d in deps <==> d != "" && Produces(produced[..i], d)
    {
      artifacts, seen := EnterArtifact(artifacts, seen, produced, i);
      DependencyEntered(deps, produced, i);
      deps := MergeDependency(deps, produced[i].resource.jobName);
    }
    assert produced[..|produced|] == produced;
  }

  /** Restore the artifact of one more resource, or weaken its Optional flag if it is restored already. */
  method EnterArtifact(artifacts0: seq<InputArtifact>, seen0: map<string, nat>, produced: seq<ResolvedResource>, i: nat)
    returns (artifacts: seq<InputArtifact>, seen: map<string, nat>)
    requires i < |produced| && SeenNames(seen0, artifacts0) && DistinctArtifacts(artifacts0)
    requires ArtifactsFor(artifacts0, produced[..i])
    ensures SeenNames(seen, artifacts) && DistinctArtifacts(artifacts) && ArtifactsFor(artifacts, produced[..i + 1])
  {
    var resource, optional := produced[i].resource, produced[i].optional;
    hide ArtifactsFor, DistinctArtifacts;
    if resource.artifact.name in seen0 {
      var idx := seen0[resource.artifact.name];
      WeakenedSeen(seen0, artifacts0, idx, optional);
      ArtifactAgain(artifacts0, produced, i, idx);
      artifacts := artifacts0[idx := artifacts0[idx].(optional := artifacts0[idx].optional && optional)];
      seen := seen0;
    } else {
      NotCarried(artifacts0, seen0, resource.artifact.name);
      AppendedSeen(seen0, artifacts0, InputArtifact(resource.artifact, resource.jobName, optional));
      ArtifactNew(artifacts0, produced, i);
      seen := seen0[resource.artifact.name := |artifacts0|];
      artifacts := artifacts0 + [InputArtifact(resource.artifact, resource.jobName, optional)];
    }
  }

  lemma NotCarried(artifacts: seq<InputArtifact>, seen: map<string, nat>, name: string)
    requires SeenNames(seen, artifacts) && name !in seen
    ensures !CarriedBy(artifacts, name)
  {
  }

  ghost predicate SeenNames(seen: map<string, nat>, artifacts: seq<InputArtifact>) {
    && (forall name | name in seen :: seen[name] < |artifacts| && artifacts[seen[name]].artifact.name == name)
    && (forall k | 0 <= k < |artifacts| :: artifacts[k].artifact.name in seen && seen[artifacts[k].artifact.name] == k)
  }

  lemma AppendedSeen(seen: map<string, nat>, artifacts: seq<InputArtifact>, a: InputArtifact)
    requires SeenNames(seen, artifacts) && DistinctArtifacts(artifacts) && a.artifact.name !in seen
    ensures SeenNames(seen[a.artifact.name := |artifacts|], artifacts + [a]) && DistinctArtifacts(artifacts + [a])
  {
  }

  lemma WeakenedSeen(seen: map<string, nat>, artifacts: seq<InputArtifact>, idx: nat, optional: bool)
    requires SeenNames(seen, artifacts) && DistinctArtifacts(artifacts) && idx < |artifacts|
    ensures var weaker := artifacts[idx := artifacts[idx].(optional := artifacts[idx].optional && optional)];
            SeenNames(seen, weaker) && DistinctArtifacts(weaker)
  {
  }

  lemma ResolvedSnoc(produced: seq<ResolvedResource>, i: nat)
    requires i < |produced|
    ensures forall a :: ArtifactFor(a, produced[..i + 1]) <==>
              (ArtifactFor(a, produced[..i]) ||
               (a.artifact == produced[i].resource.artifact && a.producerJob == produced[i].resource.jobName))
    ensures forall name :: AllOptional(name, produced[..i + 1]) <==>
              AllOptional(name, produced[..i]) && (produced[i].resource.artifact.name == name ==> produced[i].optional)
    ensures forall job ::
            Produces(produced[..i + 1], job) <==> Produces(produced[..i], job) || produced[i].resource.jobName == job
  {
    var p, q := produced[..i], produced[..i + 1];
    assert q[i] == produced[i] && forall k | 0 <= k < i :: q[k] == p[k];
    forall a ensures ArtifactFor(a, q) <==>
                     (ArtifactFor(a, p) ||
                      (a.artifact == produced[i].resource.artifact && a.producerJob == produced[i].resource.jobName)) {
      if ArtifactFor(a, p) {
        var k :| 0 <= k < |p| && a.artifact == p[k].resource.artifact && a.producerJob == p[k].resource.jobName;
        assert q[k] == p[k];
      }
    }
    forall job | Produces(p, job) ensures Produces(q, job) {
      var k :| 0 <= k < |p| && p[k].resource.jobName == job;
      assert q[k] == p[k];
    }
    forall name | AllOptional(name, q) ensures AllOptional(name, p) {
      forall k | 0 <= k < |p| && p[k].resource.artifact.name == name ensures p[k].optional {
        assert q[k] == p[k];
      }
    }
  }

  ghost predicate ArtifactsFor(artifacts: seq<InputArtifact>, resources: seq<ResolvedResource>) {
    && (forall a | a in artifacts ::
          ArtifactFor(a, resources) && (a.optional <==> AllOptional(a.artifact.name, resources)))
    && (forall k | 0 <= k < |resources| :: CarriedBy(artifacts, resources[k].resource.artifact.name))
  }

  lemma ArtifactAgain(artifacts: seq<InputArtifact>, produced: seq<ResolvedResource>, i: nat, idx: nat)
    requires i < |produced| && ArtifactsFor(artifacts, produced[..i]) && DistinctArtifacts(artifacts)
    requires idx < |artifacts| && artifacts[idx].artifact.name == produced[i].resource.artifact.name
    ensures var weaker := artifacts[idx].(optional := artifacts[idx].optional && produced[i].optional);
            ArtifactsFor(artifacts[idx := weaker], produced[..i + 1])
  {
    var next := artifacts[idx := artifacts[idx].(optional := artifacts[idx].optional && produced[i].optional)];
    ResolvedSnoc(produced, i);
    forall a | a in next
      ensures ArtifactFor(a, produced[..i + 1]) && (a.optional <==> AllOptional(a.artifact.name, produced[..i + 1]))
    {
      var k :| 0 <= k < |next| && next[k] == a;
      assert artifacts[k] in artifacts;
      SameOrigin(artifacts[k], a, produced[..i]);
    }
    hide ArtifactFor, AllOptional;
    forall name | CarriedBy(artifacts, name) ensures CarriedBy(next, name) {
      StillCarried(artifacts, next, name);
    }
    assert artifacts[idx] in artifacts;
    assert CarriedBy(artifacts, produced[i].resource.artifact.name);
    assert forall k | 0 <= k < i :: produced[..i + 1][k] == produced[..i][k];
  }

  lemma SameOrigin(a: InputArtifact, b: InputArtifact, produced: seq<ResolvedResource>)
    requires ArtifactFor(a, produced) && a.artifact == b.artifact && a.producerJob == b.producerJob
    ensures ArtifactFor(b, produced)
  {
  }

  lemma StillCarried(before: seq<InputArtifact>, after: seq<InputArtifact>, name: string)
    requires CarriedBy(before, name) && |before| <= |after|
    requires forall k | 0 <= k < |before| :: after[k].artifact.name == before[k].artifact.name
    ensures CarriedBy(after, name)
  {
    var a :| a in before && a.artifact.name == name;
    var k :| 0 <= k < |before| && before[k] == a;
    assert after[k] in after;
  }

  lemma ArtifactNew(artifacts: seq<InputArtifact>, produced: seq<ResolvedResource>, i: nat)
    requires i < |produced| && ArtifactsFor(artifacts, produced[..i])
    requires !CarriedBy(artifacts, produced[i].resource.artifact.name)
    ensures var p := produced[i].resource;
            var added := InputArtifact(p.artifact, p.jobName, produced[i].optional);
            ArtifactsFor(artifacts + [added], produced[..i + 1])
  {
    var name := produced[i].resource.artifact.name;
    var added := InputArtifact(produced[i].resource.artifact, produced[i].resource.jobName, produced[i].optional);
    var next := artifacts + [added];
    ResolvedSnoc(produced, i);
    forall k | 0 <= k < i ensures produced[..i][k].resource.artifact.name != name {
      assert CarriedBy(artifacts, produced[..i][k].resource.artifact.name);
    }
    forall a | a in next
      ensures ArtifactFor(a, produced[..i + 1]) && (a.optional <==> AllOptional(a.artifact.name, produced[..i + 1]))
    {
      if a in artifacts {
        assert CarriedBy(artifacts, a.artifact.name);
      }
    }
    forall n | CarriedBy(artifacts, n) ensures CarriedBy(next, n) {
      StillCarried(artifacts, next, n);
    }
    assert added in next;
    assert forall k | 0 <= k < i :: produced[..i + 1][k] == produced[..i][k];
  }

  lemma DependencyEntered(deps: seq<string>, produced: seq<ResolvedResource>, i: nat)
    requires i < |produced| && Distinct(deps) && forall d :: d in deps <==> d != "" && Produces(produced[..i], d)
    ensures var next := MergeDependency(deps, produced[i].resource.jobName);
            Distinct(next) && forall d :: d in next <==> d != "" && Produces(produced[..i + 1], d)
  {
    ResolvedSnoc(produced, i);
  }
}
