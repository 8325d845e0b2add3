/**
 A build whose pipeline validation rejects because of how a product's path is written: the constructor
 of contributed jobs takes the path as it is, its artifact carries it in normal form.
 */
module ProductPathExample {
  import opened Digraph
  import opened PipelineIR
  import opened WorkspacePaths
  import opened ResourceResolution
  import opened Validation
  import opened TerraformJobs
  import opened Building
  import opened BuilderSoundness

  /** A job that requests nothing and writes one report to the given path. */
  function Reporting(path: string): ContributedJob {
    ContributedJob("report", ["run"], [], [], [ResourceSpec(ResourceRef(PluginReport, "", "cost"), path)], false)
  }

  /** No modules, and one contributed job. */
  function ReportAlone(path: string): Build {
    Build(JobPlan([], [], Graph({}, map[]), {}), false, [], [Reporting(path)])
  }

  lemma ReportingOk(path: string)
    requires ValidPath(path)
    ensures ContributedOk(Reporting(path))
  {
    hide ValidPath;
    assert "run"[0] == 'r' && 'r' in "run" && NotBlank("run");
    assert "cost"[0] == 'c' && 'c' in "cost" && ProducerNameOk("cost");
  }

  lemma ReportSetup(path: string)
    requires ValidPath(path)
    ensures Setup(ReportAlone(path))
  {
    ReportingOk(path);
    hide ContributedOk;
    var g := ReportAlone(path).plan.subgraph;
    assert forall u, v :: !Edge(g, u, v);
    assert Elements([]) == {};
  }

  lemma ReportBase(path: string)
    ensures ReportAlone(path).Base() == [NewCommandJob(Reporting(path))]
  {
    hide NewCommandJob;
  }

  lemma ReportIndexed(path: string)
    requires path != ""
    ensures Indexable(AllProduced([NewCommandJob(Reporting(path))]))
  {
    hide Joined;
    var job := NewCommandJob(Reporting(path));
    assert [job][..0] == [];
    assert AllProduced([job]) == [] + ProducedBy(job);
    assert ResourcePaths(job.produces) == [path];
    assert Compacted([path]) == Compacted([]) + [Joined([path])];
  }

  /** A job without requests is resolved as it is. */
  lemma NothingRequested(job: Job, all: seq<ProducedResource>)
    requires job.consumes == [] && job.inputArtifacts == []
    ensures Resolves(job, job, [], all)
  {
    assert Specs([]) == [] && MergeAll(job.dependencies, []) == job.dependencies;
    assert ResolvesWith(job, job, [], all, [], []);
  }

  lemma ReportResolves(path: string)
    requires path != ""
    ensures var b := ReportAlone(path);
            Compiled(b, b.Base()) && Resolvable(b.Base(), b.required, b.contributed, true)
  {
    hide Resolves, Indexable, AllProduced;
    var b := ReportAlone(path);
    var job := NewCommandJob(Reporting(path));
    ReportBase(path);
    ReportIndexed(path);
    NothingRequested(job, AllProduced([job]));
    assert ResolvedNth(b.Base(), b.Base(), b.contributed, 0);
  }

  /** The build meets every assumption, resolves, and its pipeline is still not well formed. */
  lemma UncleanProductRejected(path: string)
    requires ValidPath(path) && path != "" && !Normal(path)
    ensures var b := ReportAlone(path);
            && Setup(b) && Compiled(b, b.Base()) && Resolvable(b.Base(), b.required, b.contributed, true)
            && !WellFormed(b.Base())
  {
    var b := ReportAlone(path);
    ReportSetup(path);
    ReportResolves(path);
    assert !NormalContributed(b.contributed) by {
      assert Reporting(path).produces[0] in Reporting(path).produces && Reporting(path) in b.contributed;
    }
    hide Setup, Compiled, Resolvable, WellFormed, ModuleJobs, ReportAlone, PlanClosed, NormalContributed;
    hide NoArtifactClash, DeclaredClosed, Awaiting, Acyclic, AllProduced, ValidPath;
    BuilderExact(b, b.Base());
  }

  /** The same at a concrete path: a trailing slash is enough. */
  lemma TrailingSlashRejected()
    ensures var b := ReportAlone("out/");
            && Setup(b) && Compiled(b, b.Base()) && Resolvable(b.Base(), b.required, b.contributed, true)
            && !WellFormed(b.Base())
  {
    hide Setup, Compiled, Resolvable, WellFormed, ModuleJobs, ReportAlone, ValidPath;
    TrailingSlashValid();
    UncleanProductRejected("out/");
  }

  lemma TrailingSlashValid()
    ensures ValidPath("out/") && !Normal("out/")
  {
    NoSlashOneSegment("out");
    SegmentsConcat("out", "");
    assert "out" + "/" + "" == "out/";
    assert Segments("") == [""];
    assert Segments("out/") == ["out", ""];
    assert "out/"[3] == '/';
  }
}
