/**
 The jobs generated for Terraform modules: names, plan and apply operations, the resources a plan
 job produces and the artifact that carries them; and the command jobs plugins contribute.
 */
module TerraformJobs {
  import opened Options
  import opened PipelineIR
  import opened WorkspacePaths
  import opened Text
  import opened ResourceResolution
  import opened Validation

  const PLAN_BINARY_FILE := "plan.tfplan"
  const PLAN_TEXT_FILE := "plan.txt"
  const PLAN_JSON_FILE := "plan.json"

  datatype PlanOutputs = PlanOutputs(text: bool, json: bool)

  datatype ContributedJob = ContributedJob(
    name: string, commands: seq<string>, dependencies: seq<string>, consumes: seq<ResourceRequest>,
    produces: seq<ResourceSpec>, allowFailure: bool)

  // ------------------------------------------------------------ names and artifacts

  function Dashed(s: string): string {
    seq(|s|, i requires 0 <= i < |s| => if s[i] == '/' then '-' else s[i])
  }

  function JobName(kind: JobKind, module_: string): string {
    match kind
    case PlanJob => "plan-" + Dashed(module_)
    case ApplyJob => "apply-" + Dashed(module_)
    case _ => Dashed(module_)
  }

  function Compacted(paths: seq<string>): seq<string> {
    if paths == [] then []
    else Compacted(paths[..|paths| - 1]) +
         if paths[|paths| - 1] == "" then [] else [Joined([paths[|paths| - 1]])]
  }

  function ResourcePaths(resources: seq<ResourceSpec>): (r: seq<string>)
    ensures |r| == |resources| && forall i | 0 <= i < |r| :: r[i] == resources[i].path
  {
    seq(|resources|, i requires 0 <= i < |resources| => resources[i].path)
  }

  function PlanArtifact(jobName: string, paths: seq<string>): Artifact {
    Artifact("terraci-" + jobName, Compacted(paths))
  }

  function ResultArtifact(jobName: string, resources: seq<ResourceSpec>): Artifact {
    if resources == [] then NO_ARTIFACT
    else Artifact("terraci-" + jobName + "-results", Compacted(ResourcePaths(resources)))
  }

  predicate Plain(p: string) {
    p != "" && Normal(p)
  }

  /** Nonempty normal paths pass through unchanged. */
  lemma {:induction false} CompactedUnchanged(paths: seq<string>)
    requires forall p | p in paths :: Plain(p)
    ensures Compacted(paths) == paths
  {
    if paths != [] {
      var init, last := paths[..|paths| - 1], paths[|paths| - 1];
      assert paths == init + [last];
      CompactedUnchanged(init);
      assert last in paths;
      JoinedNormal(last);
    }
  }

  // ------------------------------------------------------------ plan and apply

  function PlanResource(kind: ResourceKind, modulePath: string, path: string): ResourceSpec {
    ResourceSpec(ResourceRef(kind, Joined([modulePath]), ""), Joined([path]))
  }

  function PlanFile(modulePath: string, file: string): string {
    Joined([modulePath, file])
  }

  function PlanResources(modulePath: string, outputs: PlanOutputs): seq<ResourceSpec> {
    [PlanResource(PlanBinary, modulePath, PlanFile(modulePath, PLAN_BINARY_FILE))]
    + (if outputs.text then [PlanResource(PlanText, modulePath, PlanFile(modulePath, PLAN_TEXT_FILE))] else [])
    + (if outputs.json then [PlanResource(PlanJson, modulePath, PlanFile(modulePath, PLAN_JSON_FILE))] else [])
  }

  function PlanOperation(modulePath: string, outputs: PlanOutputs): Operation {
    Operation(TerraformPlan,
              Some(TerraformOperation(
                     TerraformPlan, modulePath, PlanFile(modulePath, PLAN_BINARY_FILE),
                     if outputs.text then PlanFile(modulePath, PLAN_TEXT_FILE) else "",
                     if outputs.json then PlanFile(modulePath, PLAN_JSON_FILE) else "",
                     outputs.text || outputs.json, false)),
              [])
  }

  function ApplyOperation(modulePath: string, usePlanFile: bool): Operation {
    Operation(TerraformApply,
              Some(TerraformOperation(
                     TerraformApply, modulePath, PlanFile(modulePath, PLAN_BINARY_FILE), "", "", false, usePlanFile)),
              [])
  }

  function NewPlanJob(modulePath: string, dependencies: seq<string>, outputs: PlanOutputs): Job {
    var name := JobName(PlanJob, modulePath);
    var produces := PlanResources(modulePath, outputs);
    Job(name, PlanJob, Some(modulePath), dependencies, [], PlanArtifact(name, ResourcePaths(produces)),
        [], produces, false, PlanOperation(modulePath, outputs))
  }

  function NewApplyJob(modulePath: string, dependencies: seq<string>, plan: Option<Job>): Job {
    var name := JobName(ApplyJob, modulePath);
    var operation := ApplyOperation(modulePath, plan.Some?);
    match plan
    case None =>
      Job(name, ApplyJob, Some(modulePath), dependencies, [], NO_ARTIFACT, [], [], false, operation)
    case Some(p) =>
      Job(name, ApplyJob, Some(modulePath), [p.name] + dependencies,
          [InputArtifact(p.outputArtifact, p.name, false)], NO_ARTIFACT,
          [PlanResource(PlanBinary, modulePath, operation.terraform.value.planFile)], [], false, operation)
  }

  function NewCommandJob(c: ContributedJob): Job {
    Job(c.name, CommandJob, None, c.dependencies, [], ResultArtifact(c.name, c.produces), [], c.produces,
        c.allowFailure, Operation(Commands, None, c.commands))
  }

  /** What module IDs are: cleaned workspace-relative paths. */
  predicate ModulePathOk(modulePath: string) {
    Normal(modulePath) && ValidPath(modulePath)
  }

  lemma PlanFileNames()
    ensures forall file | file in {PLAN_BINARY_FILE, PLAN_TEXT_FILE, PLAN_JSON_FILE} ::
              file != "" && '/' !in file && '\\' !in file && SafeSegment(file)
  {
  }

  lemma PlanResourceOk(kind: ResourceKind, modulePath: string, file: string)
    requires ModulePathOk(modulePath) && IsPlanKind(kind)
    requires file in {PLAN_BINARY_FILE, PLAN_TEXT_FILE, PLAN_JSON_FILE}
    ensures var path := PlanFile(modulePath, file);
            && Plain(path)
            && PlanResource(kind, modulePath, path) == ResourceSpec(ResourceRef(kind, modulePath, ""), path)
            && ResourceOk(PlanResource(kind, modulePath, path))
  {
    PlanFileNames();
    FileInValidDirectory(modulePath, file);
    JoinedNormal(modulePath);
    JoinedNormal(PlanFile(modulePath, file));
  }

  ghost predicate HasKind(specs: seq<ResourceSpec>, kind: ResourceKind) {
    exists spec :: spec in specs && spec.ref.kind == kind
  }

  ghost predicate PlanSpecOk(spec: ResourceSpec, modulePath: string) {
    ResourceOk(spec) && Plain(spec.path) && spec.ref.modulePath == modulePath && spec.ref.producer == ""
  }

  lemma PlanSpecs(modulePath: string, outputs: PlanOutputs)
    requires ModulePathOk(modulePath)
    ensures var specs := PlanResources(modulePath, outputs);
            && (forall spec | spec in specs :: PlanSpecOk(spec, modulePath))
            && HasKind(specs, PlanBinary) && specs[0].ref.kind == PlanBinary
            && (HasKind(specs, PlanText) <==> outputs.text)
            && (HasKind(specs, PlanJson) <==> outputs.json)
  {
    PlanResourceOk(PlanBinary, modulePath, PLAN_BINARY_FILE);
    PlanResourceOk(PlanText, modulePath, PLAN_TEXT_FILE);
    PlanResourceOk(PlanJson, modulePath, PLAN_JSON_FILE);
    OptionalSpecs(modulePath, outputs,
                  PlanResource(PlanBinary, modulePath, PlanFile(modulePath, PLAN_BINARY_FILE)),
                  PlanResource(PlanText, modulePath, PlanFile(modulePath, PLAN_TEXT_FILE)),
                  PlanResource(PlanJson, modulePath, PlanFile(modulePath, PLAN_JSON_FILE)));
  }

  lemma OptionalSpecs(modulePath: string, outputs: PlanOutputs, binary: ResourceSpec, text: ResourceSpec,
                      json: ResourceSpec)
    requires binary.ref.kind == PlanBinary && text.ref.kind == PlanText && json.ref.kind == PlanJson
    requires PlanSpecOk(binary, modulePath) && PlanSpecOk(text, modulePath) && PlanSpecOk(json, modulePath)
    ensures var specs := [binary] + (if outputs.text then [text] else []) + (if outputs.json then [json] else []);
            && (forall spec | spec in specs :: PlanSpecOk(spec, modulePath))
            && HasKind(specs, PlanBinary) && specs[0].ref.kind == PlanBinary
            && (HasKind(specs, PlanText) <==> outputs.text)
            && (HasKind(specs, PlanJson) <==> outputs.json)
  {
    var specs := [binary] + (if outputs.text then [text] else []) + (if outputs.json then [json] else []);
    assert forall spec :: spec in specs <==>
             spec == binary || (outputs.text && spec == text) || (outputs.json && spec == json);
  }

  /**
   A plan job always produces the plan binary, the text and JSON plans exactly when asked for, and
   every path it produces is one of its artifact's paths.
   */
  lemma PlanJobProducts(modulePath: string, dependencies: seq<string>, outputs: PlanOutputs)
    requires ModulePathOk(modulePath)
    ensures var job := NewPlanJob(modulePath, dependencies, outputs);
            && JobOk(job) && job.outputArtifact.Configured()
            && job.outputArtifact.paths == ResourcePaths(job.produces)
            && (forall spec | spec in job.produces ::
                  PlanSpecOk(spec, modulePath) && spec.path in job.outputArtifact.paths)
            && job.produces[0].ref.kind == PlanBinary
            && (HasKind(job.produces, PlanText) <==> outputs.text)
            && (HasKind(job.produces, PlanJson) <==> outputs.json)
  {
    PlanSpecs(modulePath, outputs);
    var specs := PlanResources(modulePath, outputs);
    PathsOf(specs, modulePath);
    CompactedUnchanged(ResourcePaths(specs));
    PathsOfProducts(specs);
  }

  lemma PathsOf(specs: seq<ResourceSpec>, modulePath: string)
    requires forall spec | spec in specs :: PlanSpecOk(spec, modulePath)
    ensures forall p | p in ResourcePaths(specs) :: Plain(p) && ValidPath(p)
  {
    forall p | p in ResourcePaths(specs) ensures Plain(p) && ValidPath(p) {
      var i :| 0 <= i < |specs| && specs[i].path == p;
      assert specs[i] in specs;
    }
  }

  lemma PathsOfProducts(specs: seq<ResourceSpec>)
    ensures forall spec | spec in specs :: spec.path in ResourcePaths(specs)
  {
    forall spec | spec in specs ensures spec.path in ResourcePaths(specs) {
      var i :| 0 <= i < |specs| && specs[i] == spec;
      assert ResourcePaths(specs)[i] == spec.path;
    }
  }

  /** The apply job restores its plan job's artifact and consumes the plan binary from it. */
  lemma ApplyJobConsumesPlan(modulePath: string, dependencies: seq<string>, plan: Job, planDeps: seq<string>,
                             outputs: PlanOutputs)
    requires ModulePathOk(modulePath) && plan == NewPlanJob(modulePath, planDeps, outputs)
    ensures var job := NewApplyJob(modulePath, dependencies, Some(plan));
            && JobOk(job) && job.consumes == [plan.produces[0]]
            && job.inputArtifacts == [InputArtifact(plan.outputArtifact, plan.name, false)]
            && RestoredFrom(job, plan) && ArtifactOk(plan.outputArtifact)
  {
    PlanJobProducts(modulePath, planDeps, outputs);
    var job := NewApplyJob(modulePath, dependencies, Some(plan));
    assert job.inputArtifacts[0] in job.inputArtifacts;
    assert plan.produces[0] in plan.produces;
    ApplyShapeOk(job, plan);
  }

  lemma ApplyShapeOk(job: Job, plan: Job)
    requires job.kind == ApplyJob && job.name != "" && OperationOk(job) && job.outputArtifact == NO_ARTIFACT
    requires job.produces == [] && plan.produces != [] && job.consumes == [plan.produces[0]]
             && ResourceOk(plan.produces[0])
    requires job.inputArtifacts == [InputArtifact(plan.outputArtifact, plan.name, false)]
    requires plan.name != "" && ArtifactOk(plan.outputArtifact)
    ensures JobOk(job)
  {
  }

  /** The job is valid on its own, and its artifact carries everything it produces. */
  ghost predicate JobFine(job: Job) {
    JobOk(job) && forall s | s in job.produces :: s.path in job.outputArtifact.paths
  }

  // ------------------------------------------------------------ contributed jobs

  predicate NotBlank(s: string) {
    exists c | c in s :: !IsSpace(c)
  }

  /** What the constructor of contributed jobs checks. */
  ghost predicate ContributedOk(c: ContributedJob) {
    && c.name != "" && c.commands != [] && (forall command | command in c.commands :: NotBlank(command))
    && (forall d | d in c.dependencies :: NotBlank(d))
    && (forall r | r in c.consumes :: RequestOk(r))
    && (forall spec | spec in c.produces :: ResourceOk(spec))
    && (forall i, j | 0 <= i < j < |c.produces| :: c.produces[i].ref != c.produces[j].ref)
  }

  ghost predicate NormalProducts(c: ContributedJob) {
    forall spec | spec in c.produces :: Normal(spec.path)
  }

  lemma CommandPaths(c: ContributedJob)
    requires ContributedOk(c) && NormalProducts(c)
    ensures forall p | p in ResourcePaths(c.produces) :: Plain(p) && ValidPath(p)
  {
    hide NotBlank, RequestOk, Segments;
    forall p | p in ResourcePaths(c.produces) ensures Plain(p) && ValidPath(p) {
      var i :| 0 <= i < |c.produces| && c.produces[i].path == p;
      assert c.produces[i] in c.produces;
    }
  }

  lemma NormalIsFine(c: ContributedJob)
    requires ContributedOk(c) && NormalProducts(c)
    ensures JobFine(NewCommandJob(c))
  {
    hide NotBlank, RequestOk, ValidPath, Plain, Compacted, Joined;
    CommandPaths(c);
    CompactedUnchanged(ResourcePaths(c.produces));
    PathsOfProducts(c.produces);
    hide RefOk;
    assert ArtifactOk(NewCommandJob(c).outputArtifact);
  }

  lemma {:induction false} CompactedNormal(paths: seq<string>)
    ensures forall p | p in Compacted(paths) :: Normal(p)
  {
    if paths != [] {
      CompactedNormal(paths[..|paths| - 1]);
      JoinedIsNormal([paths[|paths| - 1]]);
    }
  }

  /** Compaction writes paths in normal form, so an artifact only carries products written that way. */
  lemma CarriedIsNormal(c: ContributedJob)
    requires forall spec | spec in c.produces :: spec.path in NewCommandJob(c).outputArtifact.paths
    ensures NormalProducts(c)
  {
    hide Compacted, Normal;
    CompactedNormal(ResourcePaths(c.produces));
  }

  /**
   A contributed job as its constructor leaves it is valid with an artifact that carries its products
   exactly when the paths of its products are in normal form.
   */
  lemma CommandJobProducts(c: ContributedJob)
    requires ContributedOk(c)
    ensures JobFine(NewCommandJob(c)) <==> NormalProducts(c)
  {
    hide JobOk, NormalProducts;
    if NormalProducts(c) {
      NormalIsFine(c);
    }
    if JobFine(NewCommandJob(c)) {
      CarriedIsNormal(c);
    }
  }
}
