/**
 What the jobs of a compiled pipeline do and exchange, said of their fields: which plan a plan job
 writes and where, which plan an apply job applies, what a contributed job runs, and what it gains
 from each of its requests.
 */
module PipelineContent {
  import opened Options
  import opened PipelineIR
  import opened WorkspacePaths
  import opened ResourceResolution
  import opened Validation
  import opened TerraformJobs
  import opened Building
  import opened BuilderSoundness

  // ------------------------------------------------------------ names

  /** d is s with every slash turned into a dash. */
  ghost predicate DashedForm(d: string, s: string) {
    |d| == |s| && forall i | 0 <= i < |s| :: d[i] == if s[i] == '/' then '-' else s[i]
  }

  lemma JobNameMeans(m: string)
    ensures exists d :: DashedForm(d, m) && JobName(PlanJob, m) == "plan-" + d && JobName(ApplyJob, m) == "apply-" + d
  {
    assert DashedForm(Dashed(m), m);
  }

  // ------------------------------------------------------------ plan jobs

  /** The file the operation writes for a plan product of the given kind. */
  function FileFor(t: TerraformOperation, kind: ResourceKind): string {
    match kind
    case PlanBinary => t.planFile
    case PlanText => t.planTextFile
    case PlanJson => t.planJsonFile
    case _ => ""
  }

  /** The path of m's plan product of the given kind. */
  function ProductPath(m: string, kind: ResourceKind): string {
    match kind
    case PlanBinary => m + "/plan.tfplan"
    case PlanText => m + "/plan.txt"
    case _ => m + "/plan.json"
  }

  function Product(m: string, kind: ResourceKind): ResourceSpec {
    ResourceSpec(ResourceRef(kind, m, ""), ProductPath(m, kind))
  }

  /**
   The operation plans m into the products: each product lies where the operation writes it, a file
   is written for a kind exactly if there is a product of that kind, and the plan is a detailed one
   exactly if there is more than the binary.
   */
  ghost predicate PlansInto(t: TerraformOperation, m: string, products: seq<ResourceSpec>) {
    && t.kind == TerraformPlan && t.modulePath == m && !t.usePlanFile
    && HasKind(products, PlanBinary)
    && (!HasKind(products, PlanText) ==> t.planTextFile == "")
    && (!HasKind(products, PlanJson) ==> t.planJsonFile == "")
    && (t.detailedPlan <==> HasKind(products, PlanText) || HasKind(products, PlanJson))
    && forall spec | spec in products ::
         && (spec.ref.kind == PlanBinary || spec.ref.kind == PlanText || spec.ref.kind == PlanJson)
         && spec == Product(m, spec.ref.kind) && spec.path == FileFor(t, spec.ref.kind)
  }

  /** A plan job of m: it plans m into what it produces, publishes just that, and restores nothing. */
  ghost predicate Plans(job: Job, m: string) {
    && job.kind == PlanJob && job.moduleID == Some(m) && !job.allowFailure
    && job.inputArtifacts == [] && job.consumes == []
    && (exists d :: DashedForm(d, m) && job.name == "plan-" + d)
    && job.operation.typ == TerraformPlan && job.operation.terraform.Some? && job.operation.commands == []
    && PlansInto(job.operation.terraform.value, m, job.produces)
    && job.outputArtifact == Artifact("terraci-" + job.name, ResourcePaths(job.produces))
  }

  lemma PlanFileIs(m: string, file: string)
    requires ModulePathOk(m) && file in {PLAN_BINARY_FILE, PLAN_TEXT_FILE, PLAN_JSON_FILE}
    ensures PlanFile(m, file) == m + "/" + file && Joined([m]) == m && Joined([m + "/" + file]) == m + "/" + file
  {
    hide Joined, SafeSegment, ValidPath;
    PlanFileNames();
    FileInValidDirectory(m, file);
    JoinedNormal(m);
    JoinedNormal(m + "/" + file);
  }

  lemma PlanFiles(m: string)
    requires ModulePathOk(m)
    ensures PlanFile(m, PLAN_BINARY_FILE) == ProductPath(m, PlanBinary)
    ensures PlanFile(m, PLAN_TEXT_FILE) == ProductPath(m, PlanText)
    ensures PlanFile(m, PLAN_JSON_FILE) == ProductPath(m, PlanJson)
    ensures Joined([m]) == m
    ensures forall kind | kind in {PlanBinary, PlanText, PlanJson} ::
              Joined([ProductPath(m, kind)]) == ProductPath(m, kind)
  {
    hide Joined, PlanFile, ModulePathOk;
    PlanFileIs(m, PLAN_BINARY_FILE);
    PlanFileIs(m, PLAN_TEXT_FILE);
    PlanFileIs(m, PLAN_JSON_FILE);
    assert m + "/" + PLAN_BINARY_FILE == m + "/plan.tfplan" && m + "/" + PLAN_TEXT_FILE == m + "/plan.txt";
    assert m + "/" + PLAN_JSON_FILE == m + "/plan.json";
  }

  lemma PlanProducts(m: string, outputs: PlanOutputs)
    requires ModulePathOk(m)
    ensures PlanResources(m, outputs) ==
            [Product(m, PlanBinary)] + (if outputs.text then [Product(m, PlanText)] else [])
            + (if outputs.json then [Product(m, PlanJson)] else [])
  {
    PlanFiles(m);
    hide Joined, PlanFile, ModulePathOk, ProductPath;
  }

  lemma ProductsByKind(m: string, outputs: PlanOutputs)
    requires ModulePathOk(m)
    ensures var specs := PlanResources(m, outputs);
            && (forall spec | spec in specs ::
                  || spec == Product(m, PlanBinary)
                  || (outputs.text && spec == Product(m, PlanText))
                  || (outputs.json && spec == Product(m, PlanJson)))
            && HasKind(specs, PlanBinary)
            && (HasKind(specs, PlanText) <==> outputs.text) && (HasKind(specs, PlanJson) <==> outputs.json)
  {
    PlanProducts(m, outputs);
    hide ModulePathOk, PlanFile, PlanResources, ProductPath;
    var binary, text, json := Product(m, PlanBinary), Product(m, PlanText), Product(m, PlanJson);
    var specs := [binary] + (if outputs.text then [text] else []) + (if outputs.json then [json] else []);
    assert forall spec :: spec in specs <==>
             spec == binary || (outputs.text && spec == text) || (outputs.json && spec == json);
  }

  lemma OperationFields(m: string, outputs: PlanOutputs)
    requires ModulePathOk(m)
    ensures PlanOperation(m, outputs).terraform.Some?
    ensures var t := PlanOperation(m, outputs).terraform.value;
            && t.kind == TerraformPlan && t.modulePath == m && !t.usePlanFile
            && (t.detailedPlan <==> outputs.text || outputs.json)
            && t.planFile == ProductPath(m, PlanBinary)
            && t.planTextFile == (if outputs.text then ProductPath(m, PlanText) else "")
            && t.planJsonFile == (if outputs.json then ProductPath(m, PlanJson) else "")
  {
    PlanFiles(m);
    hide PlanFile, ModulePathOk, ProductPath;
  }

  lemma OperationPlansInto(m: string, outputs: PlanOutputs)
    requires ModulePathOk(m)
    ensures PlanOperation(m, outputs).terraform.Some?
    ensures PlansInto(PlanOperation(m, outputs).terraform.value, m, PlanResources(m, outputs))
  {
    OperationFields(m, outputs);
    ProductsByKind(m, outputs);
    hide PlanOperation, PlanFile, PlanResources, ModulePathOk, HasKind, ProductPath;
    FromFields(PlanOperation(m, outputs).terraform.value, m, PlanResources(m, outputs), outputs);
  }

  lemma FromFields(t: TerraformOperation, m: string, specs: seq<ResourceSpec>, outputs: PlanOutputs)
    requires t.kind == TerraformPlan && t.modulePath == m && !t.usePlanFile
    requires t.detailedPlan <==> outputs.text || outputs.json
    requires t.planFile == ProductPath(m, PlanBinary)
    requires t.planTextFile == (if outputs.text then ProductPath(m, PlanText) else "")
    requires t.planJsonFile == (if outputs.json then ProductPath(m, PlanJson) else "")
    requires HasKind(specs, PlanBinary)
    requires (HasKind(specs, PlanText) <==> outputs.text) && (HasKind(specs, PlanJson) <==> outputs.json)
    requires forall spec | spec in specs ::
               || spec == Product(m, PlanBinary)
               || (outputs.text && spec == Product(m, PlanText))
               || (outputs.json && spec == Product(m, PlanJson))
    ensures PlansInto(t, m, specs)
  {
    hide HasKind, ProductPath;
  }

  lemma NewPlanJobPlans(m: string, deps: seq<string>, outputs: PlanOutputs)
    requires ModulePathOk(m)
    ensures Plans(NewPlanJob(m, deps, outputs), m)
  {
    PlanJobProducts(m, deps, outputs);
    OperationPlansInto(m, outputs);
    JobNameMeans(m);
    hide ModulePathOk, JobOk, PlanFile, Compacted, JobName, ResourceOk, Plain, DashedForm, PlansInto, HasKind;
    hide PlanSpecOk, PlanResources, ResourcePaths;
  }

  /** Every plan job of a compiled pipeline plans a module of the build. */
  lemma PlanJobsPlan(b: Build, jobs: seq<Job>, job: Job)
    requires Setup(b) && Compiled(b, jobs) && job in jobs && job.kind == PlanJob
    ensures exists m :: m in b.plan.subgraph.nodes && m in b.plan.index && Plans(job, m)
  {
    hide Setup, Compiled, Plans, Applies;
    var m := ModuleJobBehind(b, jobs, job);
  }

  // ------------------------------------------------------------ apply jobs

  /** An apply job of m restores the artifact of m's plan job, consumes its binary plan and applies that file. */
  ghost predicate Applies(job: Job, planJob: Job, m: string) {
    && job.kind == ApplyJob && job.moduleID == Some(m) && !job.allowFailure
    && job.produces == [] && job.outputArtifact == Artifact("", [])
    && (exists d :: DashedForm(d, m) && job.name == "apply-" + d)
    && job.operation.typ == TerraformApply && job.operation.terraform.Some? && job.operation.commands == []
    && var t := job.operation.terraform.value;
       && t.kind == TerraformApply && t.modulePath == m && t.usePlanFile && !t.detailedPlan
       && t.planTextFile == "" && t.planJsonFile == ""
       && Plans(planJob, m) && planJob.name in job.dependencies
       && job.inputArtifacts == [InputArtifact(planJob.outputArtifact, planJob.name, false)]
       && |job.consumes| == 1 && job.consumes[0] in planJob.produces
       && job.consumes[0].ref.kind == PlanBinary && job.consumes[0].path == t.planFile
       && t.planFile == planJob.operation.terraform.value.planFile
  }

  lemma NewApplyJobApplies(m: string, deps: seq<string>, planDeps: seq<string>, outputs: PlanOutputs)
    requires ModulePathOk(m)
    ensures var planJob := NewPlanJob(m, planDeps, outputs); Applies(NewApplyJob(m, deps, Some(planJob)), planJob, m)
  {
    var planJob := NewPlanJob(m, planDeps, outputs);
    NewPlanJobPlans(m, planDeps, outputs);
    ApplyJobConsumesPlan(m, deps, planJob, planDeps, outputs);
    BinaryFile(m, planDeps, outputs);
    ApplyFrame(m, deps, planJob);
    JobNameMeans(m);
    hide ModulePathOk, Plans, Joined, JobName, DashedForm, NewPlanJob, NewApplyJob, JobOk, RestoredFrom;
    hide ArtifactOk, PlanFile;
    assert planJob.produces[0] in planJob.produces;
  }

  lemma ApplyFrame(m: string, deps: seq<string>, planJob: Job)
    ensures var job := NewApplyJob(m, deps, Some(planJob));
            && job.kind == ApplyJob && job.moduleID == Some(m) && !job.allowFailure
            && job.produces == [] && job.outputArtifact == Artifact("", []) && job.name == JobName(ApplyJob, m)
            && job.operation == ApplyOperation(m, true) && planJob.name in job.dependencies
  {
    hide JobName, ApplyOperation;
    var job := NewApplyJob(m, deps, Some(planJob));
    assert job.dependencies[0] == planJob.name;
  }

  lemma BinaryFile(m: string, deps: seq<string>, outputs: PlanOutputs)
    requires ModulePathOk(m)
    ensures var planJob := NewPlanJob(m, deps, outputs);
            && planJob.produces != [] && planJob.produces[0].ref.kind == PlanBinary
            && planJob.operation.terraform.Some?
            && planJob.operation.terraform.value.planFile == PlanFile(m, PLAN_BINARY_FILE) == planJob.produces[0].path
  {
    PlanProducts(m, outputs);
    PlanFiles(m);
    hide PlanFile, ModulePathOk, PlanArtifact, JobName, PlanResources, ProductPath;
  }

  /** Without a plan job, an apply job runs a plain apply and restores, consumes and publishes nothing. */
  lemma ApplyWithoutPlan(m: string, deps: seq<string>)
    ensures var job := NewApplyJob(m, deps, None);
            && job.kind == ApplyJob && job.moduleID == Some(m) && job.dependencies == deps && !job.allowFailure
            && job.inputArtifacts == [] && job.consumes == [] && job.produces == []
            && job.outputArtifact == Artifact("", []) && job.operation == ApplyOperation(m, false)
            && !job.operation.terraform.value.usePlanFile && job.operation.terraform.value.modulePath == m
  {
    hide JobName, PlanFile;
  }

  /** Every apply job of a compiled pipeline applies the plan of a plan job of the pipeline. */
  lemma ApplyJobsApply(b: Build, jobs: seq<Job>, job: Job)
    requires Setup(b) && Compiled(b, jobs) && job in jobs && job.kind == ApplyJob
    ensures exists m, planJob ::
              m in b.plan.subgraph.nodes && m in b.plan.index && planJob in jobs && Applies(job, planJob, m)
  {
    hide Setup, Compiled, Plans, Applies;
    var m := ModuleJobBehind(b, jobs, job);
  }

  /** The module a plan or apply job is about. */
  lemma ModuleJobBehind(b: Build, jobs: seq<Job>, job: Job) returns (m: string)
    requires Setup(b) && Compiled(b, jobs) && job in jobs && job.kind != CommandJob
    ensures m in b.plan.subgraph.nodes && m in b.plan.index
    ensures job.kind == PlanJob ==> Plans(job, m)
    ensures job.kind == ApplyJob ==> exists planJob :: planJob in jobs && Applies(job, planJob, m)
  {
    CompiledIsAssembled(b, jobs);
    AssembledLength(b.ModulePart(), b.contributed, jobs);
    hide Compiled, Plans, Applies, ModuleJobs, JobsOf, ModulePathOk, Assembled, PlanJobOf, ApplyJobOf;
    hide NamesApart, ContributedOk, AllRequests, NeedsPlan, AllProduced, ResolvedAt;
    if job !in b.ModulePart() {
      TailIsCommands(b.ModulePart(), b.contributed, jobs, job);
    }
    m := ModuleJobShape(b, job);
    InPrefix(b.ModulePart(), jobs, PlanJobOf(b.plan, b.apply, b.Requests(), m));
    ShapesMean(b, m);
  }

  lemma TailIsCommands(part: seq<Job>, contributed: seq<ContributedJob>, jobs: seq<Job>, job: Job)
    requires Assembled(part, contributed, jobs) && job in jobs && job !in part
    ensures job.kind == CommandJob
  {
    hide AllProduced, Resolves, Assembled;
    var i := JobAt(part, contributed, jobs, job);
    ResolvedIsCommand(NewCommandJob(contributed[i]), job, contributed[i].consumes, AllProduced(jobs));
  }

  lemma ResolvedIsCommand(before: Job, after: Job, requests: seq<ResourceRequest>, all: seq<ProducedResource>)
    requires Resolves(before, after, requests, all)
    ensures after.kind == before.kind && after.moduleID == before.moduleID && after.operation == before.operation
    ensures after.allowFailure == before.allowFailure && after.name == before.name
    ensures after.produces == before.produces && after.outputArtifact == before.outputArtifact
  {
  }

  lemma ShapesMean(b: Build, m: string)
    requires ModulePathOk(m)
    ensures PlanJobOf(b.plan, b.apply, b.Requests(), m).kind == PlanJob
    ensures Plans(PlanJobOf(b.plan, b.apply, b.Requests(), m), m)
    ensures b.apply ==>
              var planJob := PlanJobOf(b.plan, b.apply, b.Requests(), m);
              var applyJob := ApplyJobOf(b.plan, b.Requests(), m);
              applyJob.kind == ApplyJob && Applies(applyJob, planJob, m)
  {
    hide ModulePathOk, Plans, Applies, DependencyNames, OutputsFor, PlanOperation, PlanResources, PlanArtifact;
    var outputs := OutputsFor(b.Requests(), m);
    NewPlanJobPlans(m, DependencyNames(b.plan, m, if b.apply then ApplyJob else PlanJob), outputs);
    NewApplyJobApplies(m, DependencyNames(b.plan, m, ApplyJob), DependencyNames(b.plan, m, ApplyJob), outputs);
  }

  // ------------------------------------------------------------ contributed jobs

  /** d is s with forward slashes only and without trailing ones. */
  ghost predicate CleanedForm(d: string, s: string) {
    && |d| <= |s| && (forall i | 0 <= i < |d| :: d[i] == if s[i] == '\\' then '/' else s[i])
    && (forall i | |d| <= i < |s| :: Separator(s[i])) && (d == "" || d[|d| - 1] != '/')
  }

  lemma JoinedIsCleaned(s: string)
    ensures CleanedForm(Joined([s]), s)
  {
    assert [s][..0] == [] && Joined([s]) == TrimRight(Slashed(s));
    var slashed := Slashed(s);
    forall i | |Joined([s])| <= i < |s| ensures Separator(s[i]) {
      assert slashed[i] == '/';
    }
  }

  lemma {:induction false} CompactedEach(paths: seq<string>)
    requires "" !in paths
    ensures |Compacted(paths)| == |paths|
    ensures forall k | 0 <= k < |paths| :: CleanedForm(Compacted(paths)[k], paths[k])
  {
    hide CleanedForm, Joined;
    if paths != [] {
      CompactedEach(paths[..|paths| - 1]);
      JoinedIsCleaned(paths[|paths| - 1]);
    }
  }

  /** The results artifact of a contributed job: none without products, else one path for each of them. */
  ghost predicate ResultsOf(a: Artifact, c: ContributedJob) {
    if c.produces == [] then a == Artifact("", [])
    else
      && a.name == "terraci-" + c.name + "-results" && |a.paths| == |c.produces|
      && forall k | 0 <= k < |a.paths| :: CleanedForm(a.paths[k], c.produces[k].path)
  }

  /** A job that runs the commands of c and publishes what c produces. */
  ghost predicate Runs(job: Job, c: ContributedJob) {
    && job.name == c.name && job.kind == CommandJob && job.moduleID == None
    && job.allowFailure == c.allowFailure
    && job.operation.typ == Commands && job.operation.terraform == None && job.operation.commands == c.commands
    && job.produces == c.produces && ResultsOf(job.outputArtifact, c)
  }

  lemma NewCommandJobRuns(c: ContributedJob)
    requires ContributedOk(c)
    ensures Runs(NewCommandJob(c), c)
  {
    CompactedEachProduct(c);
    hide ContributedOk, Compacted, CleanedForm;
  }

  lemma CompactedEachProduct(c: ContributedJob)
    requires ContributedOk(c)
    ensures var paths := ResourcePaths(c.produces);
            && |Compacted(paths)| == |c.produces|
            && forall k | 0 <= k < |paths| :: CleanedForm(Compacted(paths)[k], c.produces[k].path)
  {
    hide Compacted, CleanedForm, NotBlank, RequestOk, Segments;
    var paths := ResourcePaths(c.produces);
    forall k | 0 <= k < |paths| ensures paths[k] != "" {
      assert ResourceOk(c.produces[k]);
    }
    CompactedEach(paths);
  }

  /** The last jobs of a compiled pipeline run what was contributed, in order. */
  lemma ContributedJobsRun(b: Build, jobs: seq<Job>, i: nat)
    requires Setup(b) && Compiled(b, jobs) && i < |b.contributed|
    ensures |b.contributed| <= |jobs|
    ensures Runs(jobs[|jobs| - |b.contributed| + i], b.contributed[i])
  {
    hide ModuleJobs, AllRequests, Compiled, Resolves, AllProduced, Indexable, Runs, GraphPlanned, NamesApart;
    var c := b.contributed[i];
    CompiledIsAssembled(b, jobs);
    AssembledLength(b.ModulePart(), b.contributed, jobs);
    NewCommandJobRuns(c);
    assert ResolvedAt(b.ModulePart(), b.contributed, jobs, i);
    RunsAfterResolving(c, jobs[|jobs| - |b.contributed| + i], AllProduced(jobs));
  }

  lemma RunsAfterResolving(c: ContributedJob, job: Job, all: seq<ProducedResource>)
    requires Resolves(NewCommandJob(c), job, c.consumes, all) && Runs(NewCommandJob(c), c)
    ensures Runs(job, c)
  {
    hide Resolves, ResultsOf;
    ResolvedIsCommand(NewCommandJob(c), job, c.consumes, all);
  }
}
