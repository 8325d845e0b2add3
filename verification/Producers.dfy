/**
 Who produces what: the products of a list of jobs, and when no resource has two producers, said of
 the jobs themselves.
 */
module Producers {
  import opened PipelineIR
  import opened ResourceResolution

  /** The product as the index of all products lists it. */
  function Listing(producer: Job, spec: ResourceSpec): ProducedResource {
    ProducedResource(spec, producer.name, producer.outputArtifact)
  }

  lemma ListedWhenProduced(jobs: seq<Job>, p: ProducedResource)
    ensures p in AllProduced(jobs) <==>
            exists q :: q in jobs && p.spec in q.produces && p == Listing(q, p.spec)
  {
    hide AllProduced;
    ProducedComesFromJob(jobs, p);
    if q :| q in jobs && p.spec in q.produces && p.jobName == q.name && p.artifact == q.outputArtifact {
      assert p == Listing(q, p.spec);
    }
  }

  /** All products can be published: of a known kind, at some path, by a job whose artifact has a name and paths. */
  lemma PublishableMeans(jobs: seq<Job>)
    ensures (forall p | p in AllProduced(jobs) :: Publishable(p)) <==>
            forall q, spec | q in jobs && spec in q.produces ::
              && spec.ref.kind != NoKind && spec.path != ""
              && q.outputArtifact.name != "" && q.outputArtifact.paths != []
  {
    hide AllProduced;
    if forall p | p in AllProduced(jobs) :: Publishable(p) {
      forall q, spec | q in jobs && spec in q.produces ensures Publishable(Listing(q, spec)) {
        ListedWhenProduced(jobs, Listing(q, spec));
      }
    }
    forall p | p in AllProduced(jobs) ensures exists q :: q in jobs && p.spec in q.produces && p == Listing(q, p.spec) {
      ListedWhenProduced(jobs, p);
    }
  }

  ghost predicate OwnRefsDistinct(job: Job) {
    forall i, j | 0 <= i < j < |job.produces| :: job.produces[i].ref != job.produces[j].ref
  }

  ghost predicate RefsApart(q: Job, t: Job) {
    forall s, u | s in q.produces && u in t.produces :: s.ref != u.ref
  }

  lemma DistinctRefsConcat(a: seq<ProducedResource>, b: seq<ProducedResource>)
    ensures DistinctRefs(a + b) <==>
            DistinctRefs(a) && DistinctRefs(b) && forall p, q | p in a && q in b :: p.spec.ref != q.spec.ref
  {
    var c := a + b;
    if DistinctRefs(c) {
      assert forall i | 0 <= i < |a| :: c[i] == a[i];
      assert forall i | 0 <= i < |b| :: c[|a| + i] == b[i];
      forall p, q | p in a && q in b ensures p.spec.ref != q.spec.ref {
        var i :| 0 <= i < |a| && a[i] == p;
        var j :| 0 <= j < |b| && b[j] == q;
        assert c[i] == p && c[|a| + j] == q;
      }
    }
  }

  lemma OwnRefs(job: Job)
    ensures DistinctRefs(ProducedBy(job)) <==> OwnRefsDistinct(job)
  {
  }

  lemma ProducedRefs(jobs: seq<Job>, t: Job)
    ensures (forall p, u | p in AllProduced(jobs) && u in ProducedBy(t) :: p.spec.ref != u.spec.ref) <==>
            forall q | q in jobs :: RefsApart(q, t)
  {
    hide AllProduced;
    if forall p, u | p in AllProduced(jobs) && u in ProducedBy(t) :: p.spec.ref != u.spec.ref {
      forall q, s, u | q in jobs && s in q.produces && u in t.produces ensures s.ref != u.ref {
        ListedWhenProduced(jobs, Listing(q, s));
        var j :| 0 <= j < |t.produces| && t.produces[j] == u;
        assert ProducedBy(t)[j].spec == u;
        assert Listing(q, s) in AllProduced(jobs) && ProducedBy(t)[j] in ProducedBy(t);
      }
    }
    if forall q | q in jobs :: RefsApart(q, t) {
      forall p, u | p in AllProduced(jobs) && u in ProducedBy(t) ensures p.spec.ref != u.spec.ref {
        ListedWhenProduced(jobs, p);
        var q :| q in jobs && p.spec in q.produces && p == Listing(q, p.spec);
        assert RefsApart(q, t) && u.spec in t.produces;
      }
    }
  }

  lemma {:induction false} DistinctRefsMeans(jobs: seq<Job>)
    requires UniqueNames(jobs)
    ensures DistinctRefs(AllProduced(jobs)) <==>
            && (forall q | q in jobs :: OwnRefsDistinct(q))
            && forall q, t | q in jobs && t in jobs && q.name != t.name :: RefsApart(q, t)
  {
    hide DistinctRefs, RefsApart, OwnRefsDistinct;
    if jobs != [] {
      var init, last := jobs[..|jobs| - 1], jobs[|jobs| - 1];
      assert jobs == init + [last];
      InitUnique(jobs);
      DistinctRefsMeans(init);
      DistinctRefsConcat(AllProduced(init), ProducedBy(last));
      OwnRefs(last);
      ProducedRefs(init, last);
      RefsApartBothWays();
    } else {
      NoRefs();
    }
  }

  lemma NoRefs()
    ensures DistinctRefs([])
  {
  }

  lemma RefsApartBothWays()
    ensures forall q, t :: RefsApart(q, t) ==> RefsApart(t, q)
  {
  }

  lemma InitUnique(jobs: seq<Job>)
    requires UniqueNames(jobs) && jobs != []
    ensures UniqueNames(jobs[..|jobs| - 1])
    ensures forall q | q in jobs[..|jobs| - 1] :: q.name != jobs[|jobs| - 1].name
  {
    var init := jobs[..|jobs| - 1];
    assert forall i | 0 <= i < |init| :: Names(init)[i] == Names(jobs)[i];
    forall q | q in init ensures q.name != jobs[|jobs| - 1].name {
      var i :| 0 <= i < |init| && init[i] == q;
      assert Names(jobs)[i] != Names(jobs)[|jobs| - 1];
    }
  }
}
