# TerraCi planning, verified

TerraCi turns a Terraform repository into a CI pipeline. This project models the spine of that and
proves what each stage promises the next:

- **Module graph** (`Digraph`, `StringOrder`, `StringHeap`, `ModuleGraph`, `InDegree`, `Topology`,
  `GraphLevels`, `DepthFirst`, `CycleCoverage`, `CycleDetection`, `CycleExample`, `Pruning`): the mutable
  dependency graph with its invariant, Kahn's sort over a binary heap, execution levels, depth-first cycle
  detection and which cycles it reports, transitive closures, induced subgraphs, and what pruning to
  affected modules does to the order.
- **Pipeline** (`Options`, `PipelineIR`, `WorkspacePaths`, `Text`, `ResourceResolution`, `Producers`,
  `TerraformJobs`, `Building`, `Validation`, `AcceptedPipelines`, `Scheduling`): jobs with resources and
  artifacts, the resolver, the builder, the validator with its three-colour search and what it accepts, and
  the barrier scheduler.
- **Results about the whole compilation** (`Compiling`, `BuilderSoundness`, `PipelineContent`,
  `RequestedResources`, `Resolvability`, `ClosureExample`, `ProductPathExample`, `LevelLaw`): which builds
  resolve, what each emitted job does, gains and waits for, exactly when validation accepts what the builder
  emits, and how the groups of the schedule follow the levels of the module graph.
- **Execution** (`Execution`, `Parallelism`, `LateStarts`, `RunResults`): the executor and its worker pool as a
  transition system over all interleavings, runner outcomes and cancellations, and the result it reports.
- **Two string cores** (`PathMatching`, `ManagedLabels`): globs with `**`, and the label record hidden
  in a review comment.

Classes and loops of the original are classes and loops here, each proved against a specification
function or predicate; the iteration order of maps is a nondeterministic choice, so every result holds
for every order. A job graph has an edge from each job to the jobs it depends on. `Done(g, k)` is what k
rounds of releasing ready nodes let out, and `Layer(g, k)` what round k adds; both the levels of the
module graph and the groups of the schedule are layers, which are tied to longest chains by
`Digraph.LayerIsLongestChain` and to cycles by `Digraph.UnreleasedIffSeesCycle`.

Some promises one might expect do not hold of the code. Each has an input at which it fails and the exact
condition under which it holds:

- After several modules changed, pruning can lose an ordering that ran through an unaffected module
  (`Pruning.SeveralChangesCanLoseOrder`); `Pruning.PruningExact` says which orderings survive.
- `DetectCycles` does not return all cycles, as its comment says (`CycleExample.CycleMissed`). It returns
  every simple cycle, for every order of the roots, if and only if any two mutually reachable modules are
  joined by a single simple path (`CycleCoverage.AllCyclesReportedIff`).
- Not every pipeline that resolves passes validation. When only planning, asking for one module's plan can
  leave its plan job depending on a job that was never emitted (`ClosureExample.AppWithoutDb`), and a
  contributed job may name a product path that its artifact carries in another form
  (`ProductPathExample.TrailingSlashRejected`). `BuilderSoundness.BuilderExact` gives the condition, which can
  be told before compiling.
- Embedding labels twice is not embedding them once: for every body it adds a line break
  (`ManagedLabels.EmbedTwice`).
- A failure does not keep the other jobs from starting: in some run of a pipeline a job starts after
  another's failure has been kept if and only if some group holds two jobs (`LateStarts.LateStartIff`).

## Model

| member | source | states |
|---|---|---|
| Digraph.LayerIsLongestChain | pkg/graph/algorithms.go:54-87 | Layer k holds exactly the nodes whose longest dependency chain has k edges: one chain of that length exists and none is longer. |
| Digraph.LayersAreEarliest | pkg/pipeline/schedule.go:53-80 | Any assignment of levels that puts dependencies strictly lower puts no node below its layer. |
| Digraph.UnreleasedIffSeesCycle | pkg/pipeline/schedule.go:82-90 | A node is never released if and only if a cycle is reachable from it or runs through it. |
| Digraph.AcyclicIffAllReleased | pkg/graph/algorithms.go:45-47 | A graph is acyclic if and only if repeated release lets out every node. |
| StringOrder.SortedKeys | pkg/graph/affected.go:67-74 | The keys in strictly ascending order, each once, whatever order they are met in. |
| StringOrder.AscendingUnique | pkg/graph/affected.go:67-74 | Two strictly ascending lists with the same members are equal, so sorting removes every trace of map order. |
| StringOrder.LessMeans | pkg/graph/algorithms.go:143 | The order all lists are sorted by: a proper prefix comes first, and otherwise the smaller character at the first difference decides. |
| StringHeap.StringHeap.Push | pkg/graph/algorithms.go:146-150 | Keeps the heap order and adds exactly the given string. |
| StringHeap.StringHeap.Pop | pkg/graph/algorithms.go:152-158 | Keeps the heap order, takes out exactly the string returned, and that string is at most every string held. |
| StringHeap.RootIsLeast | pkg/graph/algorithms.go:139-158 | In a heap-ordered list the first entry is at most every entry. |
| ModuleGraph.DependencyGraph.AddNode | pkg/graph/dependency.go:66-70 | Keeps the invariant; a known module is left alone, a new one starts without edges and with zero degrees. |
| ModuleGraph.DependencyGraph.AddEdge | pkg/graph/dependency.go:73-91 | Keeps the invariant that edges and reverse edges mirror each other, join known modules, occur once and match the degree counters; adds the edge only if both ends are known and it is new, and records a diagnostic only if an end is unknown. |
| ModuleGraph.DependencyGraph.AddLibraryUsage | pkg/graph/dependency.go:140-145 | Adds the module to the users of the path without a trailing slash, unless it is listed, and touches nothing else. |
| ModuleGraph.SlashedChangeAffectsSame | pkg/graph/dependency.go:195-197 | Writing changed library paths with or without a trailing slash selects the same users. |
| ModuleGraph.BuildFromDependencies | pkg/graph/dependency.go:44-61 | The graph over the given modules has exactly the extracted dependencies between them as edges and exactly the extracted libraries as usage. |
| ModuleGraph.CollectTransitive | pkg/graph/dependency.go:116-135 | Terminates with exactly the nodes one or more steps away, each once; the start only when it lies on a cycle. |
| ModuleGraph.DependencyGraph.GetAllDependencies | pkg/graph/dependency.go:106-108 | Lists exactly the modules the given one reaches, each once. |
| ModuleGraph.DependencyGraph.GetAllDependents | pkg/graph/dependency.go:111-113 | Lists exactly the modules that reach the given one in the forward graph, each once. |
| ModuleGraph.DependencyGraph.Subgraph | pkg/graph/dependency.go:202-224 | A fresh valid graph with the kept modules and exactly the edges between them, adjacency order preserved. |
| ModuleGraph.DependencyGraph.ScopeToModule | pkg/graph/dependency.go:229-242 | Fails exactly for unknown modules; otherwise keeps the module and what it reaches, or what reaches it, with all edges between them. |
| ModuleGraph.DependencyGraph.GetAffectedModules | pkg/graph/affected.go:10-22 | Ascending list of exactly the changed modules, their transitive dependents and their transitive dependencies. |
| ModuleGraph.DependencyGraph.GetAffectedByLibraryChanges | pkg/graph/affected.go:25-47 | Ascending list of exactly the users of a changed library or of a library nested below a changed path. |
| ModuleGraph.DependencyGraph.GetAffectedModulesWithLibraries | pkg/graph/affected.go:50-65 | Ascending list of exactly the modules affected by module changes plus the users of changed libraries and what those depend on. |
| Topology.TopologicalSort | pkg/graph/algorithms.go:11-50 | Succeeds if and only if the graph is acyclic, and then returns the lexicographically least of all dependencies-first permutations of the modules. |
| Topology.GreedyIsLeast | pkg/graph/algorithms.go:26-43 | Always taking the least available module yields the lexicographically least topological order. |
| Topology.LeastOrderUnique | pkg/graph/algorithms.go:11-50 | Graphs with equal modules and equal edge relations sort equally: insertion order and map order play no part. |
| Topology.StuckMeansCycle | pkg/graph/algorithms.go:45-47 | When nothing is available any more, the output has as many entries as there are modules if and only if the graph is acyclic. |
| Topology.PopAndRelease | pkg/graph/algorithms.go:29-43 | One round keeps the heap equal to what can come next and the counters equal to the outstanding dependencies. |
| GraphLevels.ExecutionLevels | pkg/graph/algorithms.go:54-87 | Fails if and only if the graph is cyclic; otherwise level k lists layer k in ascending order, nothing lies beyond the last level, and only the empty graph has an empty level, its single one. |
| GraphLevels.LayerFromDependencies | pkg/graph/algorithms.go:60-73 | One more than the highest level among a module's dependencies is the length of its longest chain. |
| CycleDetection.DetectCycles | pkg/graph/algorithms.go:90-128 | For every iteration order the report is exactly that of the specified search, each list in it is a simple cycle of the graph, and it is empty if and only if the graph is acyclic. |
| CycleDetection.CycleFinder.Dfs | pkg/graph/algorithms.go:97-119 | One call on mutable path, recursion stack and visited set does exactly what the specified visit does, and leaves the recursion stack equal to the members of the path. |
| CycleDetection.FindIndex | pkg/graph/algorithms.go:130-137 | The first position of the value, or -1 exactly when it is absent. |
| DepthFirst.VisitFacts | pkg/graph/algorithms.go:97-119 | A visit enters new modules only below the one visited, each by a simple walk made of the walks to the modules on it, and follows each of their edges: one leading back into the walk has its cycle reported. |
| CycleCoverage.AllCyclesReportedIff | pkg/graph/algorithms.go:90-128 | Every simple cycle is reported, up to the module it is written from and for every iteration order, if and only if any two mutually reachable modules are joined by a single simple path. |
| CycleCoverage.NothingReportedIff | pkg/graph/algorithms.go:90-128 | For every iteration order the report is empty if and only if the graph is acyclic. |
| CycleCoverage.ReportedAreSimple | pkg/graph/algorithms.go:105-111 | Every reported list is a simple cycle. |
| CycleExample.CycleMissed | pkg/graph/algorithms.go:89-128 | On four modules, two of them depending on a third and needed by a fourth, one of the two simple cycles is not reported. |
| Pruning.PruningExact | pkg/graph/affected.go:10-22 | After several changes an ordering survives if and only if it starts at a changed module or a dependency of one, ends at a changed module or a dependent of one, or crosses directly from the one side to the other. |
| Pruning.SingleChangeKeepsOrder | pkg/graph/affected.go:10-22 | For one changed module the pruned graph has the same reachability between kept modules as the whole graph, cycles included. |
| Pruning.ScopeKeepsOrder | pkg/graph/dependency.go:229-242 | Scoping to one module, in either direction, keeps reachability between the modules kept. |
| Pruning.SeveralChangesCanLoseOrder | pkg/graph/affected.go:10-22 | A five-module graph and two changes for which an ordering between affected modules is gone after pruning. |
| Pruning.DiamondHolds | pkg/graph/dependency.go:73-91 | The graph of that example is closed, acyclic and without repeated edges, as the planner's graphs are. |
| Pruning.DiamondPruned | pkg/graph/dependency.go:202-224 | What is left of that graph after pruning. |
| Pruning.SubgraphIsPruned | pkg/graph/dependency.go:202-224 | The subgraph induced by the affected modules is the pruned graph the results above speak about. |
| Pruning.AffectedByUnion | pkg/graph/affected.go:10-22 | What a union of change sets affects is the union of what each affects. |
| Scheduling.Schedule | pkg/pipeline/schedule.go:21-93 | Names the first duplicate, else the first unknown dependency, else fails for a cycle naming exactly the jobs from which a cycle is reachable, in IR order; else group i holds, in IR order, exactly the jobs of layer i, no group is empty and no job is missing. |
| Scheduling.OutcomeDecides | pkg/pipeline/schedule.go:21-93 | Scheduling succeeds if and only if the names are unique, the dependencies closed and the job graph acyclic. |
| Scheduling.ScheduledOnceAtChainLength | pkg/pipeline/schedule.go:53-80 | Every job is in some group, and it is in group i if and only if its longest dependency chain has i edges. |
| Scheduling.DependenciesInEarlierGroups | pkg/pipeline/schedule.go:53-80 | Each dependency of a scheduled job is in an earlier group. |
| Scheduling.ScheduleIsOptimal | pkg/pipeline/schedule.go:53-80 | No layering that respects the dependencies has fewer groups or puts any job earlier. |
| Scheduling.Exhausted | pkg/pipeline/schedule.go:82-90 | When no job is ready, the jobs left are exactly those from which a cycle is reachable; none is left if and only if the job graph is acyclic. |
| Scheduling.WireJobs | pkg/pipeline/schedule.go:42-51 | Finds the first unknown dependency in reading order, or records each dependency as often as it is listed, in the in-degrees and among the dependents. |
| Validation.Validate | pkg/pipeline/validate.go:11-36 | Accepts if and only if the pipeline is well formed; every refusal names a phase, and a job, at which it is not. |
| AcceptedPipelines.AcceptedMeans | pkg/pipeline/validate.go:11-36 | Said of fields alone, accepted is: names apart; each job with the operation and module of its kind, complete artifacts, and resources that name a module or else a producer; every dependency, restored artifact and consumed resource traced to a job; no resource with two producers; no job waiting for itself. |
| AcceptedPipelines.AcceptedStaysInside | pkg/pipeline/validate.go:133-168 | No artifact, resource or module path of an accepted pipeline is empty, absolute, drive-prefixed or steps to a parent. |
| AcceptedPipelines.RequestOkMeans | pkg/pipeline/resource_resolver.go:233-286 | A request is well formed if and only if it is for plans of all modules or of one at a valid path, or for results or reports of all producers or of one with a proper name, and sets no other selector. |
| Validation.CheckEdges | pkg/pipeline/validate.go:69-99 | Accepts if and only if every dependency names a job and every configured input artifact equals what one of the job's dependencies publishes. |
| Validation.CheckProducts | pkg/pipeline/validate.go:228-242 | Accepts if and only if every produced path occurs in the job's artifact. |
| Validation.CheckConsumed | pkg/pipeline/validate.go:244-287 | Accepts if and only if every consumed resource is written, at its path, by the job itself or by a dependency whose artifact it restores. |
| Validation.SuppliedByIndexed | pkg/pipeline/validate.go:260-284 | The lookups in index, names and inputs decide whether a resource is supplied by any job at all. |
| Validation.ValidateAcyclic | pkg/pipeline/validate.go:293-325 | The three-colour search accepts if and only if the job graph is acyclic, repeated and self dependencies included; what it names lies on a cycle. |
| Validation.JobVisitor.Visit | pkg/pipeline/validate.go:297-318 | Either names a job on a cycle or finishes the job after all it depends on and leaves the stack as found. |
| ResourceResolution.BuildResourceIndex | pkg/pipeline/resource_resolver.go:62-93 | Succeeds if and only if every product has a kind, a path and a configured artifact and no resource has two producers; then every product is found under its reference. |
| Producers.PublishableMeans | pkg/pipeline/resource_resolver.go:62-76 | All products can be indexed on their own if and only if each has a kind and a path and its job an artifact with a name and paths. |
| ResourceResolution.MatchingResources | pkg/pipeline/resource_resolver.go:172-187 | Exactly the products of other jobs that the request matches, each once. |
| ResourceResolution.ResolveRequests | pkg/pipeline/resource_resolver.go:130-163 | Succeeds if and only if every request is well formed and matches something or may stay empty; yields exactly the resources some request selects, each once, optional if and only if every selecting request is. |
| ResourceResolution.ResolveForJob | pkg/pipeline/resource_resolver.go:95-128 | In terms of its requests alone, the job consumes exactly the products they select, depends on exactly their producers and restores one of their artifacts per name, optional if and only if every request selecting anything carried under that name is. |
| ResourceResolution.CollectInputs | pkg/pipeline/resource_resolver.go:101-127 | One input per artifact name, taken from a resource that has it, and one dependency per producer. |
| RequestedResources.ContributedGains | pkg/pipeline/resource_resolver.go:95-205 | Said of fields alone, a contributed job consumes, each once, exactly the products of other jobs that match a request in kind and in module or producer, all of the kind where the request asks for all; waits for exactly those jobs and the declared ones; and restores one of their artifacts per name, optional if and only if every request leading to that name is. |
| Resolvability.ResolvableMeans | pkg/pipeline/builder.go:251-276 | A build resolves if and only if no contributed job declares another's product or a plan the build writes, and every request is well formed and finds an emitted module or another contributed job that has what it asks for, is optional, or is for all modules of a build without targets. |
| Resolvability.BaseProduct | pkg/pipeline/builder.go:82-162 | What the jobs of a build produce is exactly the declared products and, for each indexed module, the plans that are asked for and, with any of them or when applying, the binary. |
| Resolvability.AllPlansResolve | pkg/pipeline/resource_resolver.go:189-205 | With some module emitted and nothing contributed, asking for the binary plans of all modules resolves. |
| Resolvability.RequestedPlanArrives | pkg/pipeline/resource_resolver.go:95-128 | A contributed job that asks for the plan of a module consumes that plan, waits for the module's plan job and restores an artifact of that job's name. |
| WorkspacePaths.Join | pkg/workspacepath/path.go:13-34 | The loop computes the component-wise definition the path laws are stated about. |
| WorkspacePaths.JoinIdempotent | pkg/workspacepath/path.go:13-34 | Joining a joined path changes nothing. |
| WorkspacePaths.ValidPathMeans | pkg/workspacepath/path.go:38-75 | Said of characters alone, a valid path is nonempty, does not start with a separator of either kind, and has no component that steps to the parent or starts with a drive letter. |
| WorkspacePaths.FileInValidDirectory | pkg/workspacepath/path.go:38-63 | A plain file name below a valid normal directory joins to a valid normal path, directory, slash, file. |
| TerraformJobs.CompactedUnchanged | pkg/pipeline/artifacts.go:31-44 | Normal nonempty artifact paths come out of compaction as they went in. |
| TerraformJobs.PlanJobProducts | pkg/pipeline/scripts.go:59-85 | A plan job is valid, produces the plan binary first, text and JSON exactly when asked for, all for its module, and its artifact carries every produced path. |
| TerraformJobs.ApplyJobConsumesPlan | pkg/pipeline/builder.go:188-218 | An apply job restores exactly its plan job's artifact and consumes exactly the plan binary from it. |
| TerraformJobs.CommandJobProducts | pkg/pipeline/types.go:205-216 | A command job as its constructor accepts it is valid with an artifact that carries its products if and only if the paths of its products are in normal form. |
| AcceptedPipelines.ContributedOkMeans | pkg/pipeline/contribution.go:192-239 | Said of fields, what the constructor of contributed jobs demands: a name, commands and dependencies that are more than white space, well-formed requests, and products at inner paths, no two for one resource. |
| PipelineContent.PlanJobsPlan | pkg/pipeline/scripts.go:59-85 | Every plan job of a compiled pipeline is the plan job of an indexed module: it plans that module, writes exactly the products it declares, each to its place below the module, is a detailed plan if and only if there is a text or JSON product, and publishes exactly those paths. |
| PipelineContent.ApplyJobsApply | pkg/pipeline/builder.go:188-218 | Every apply job of a compiled pipeline applies the saved plan: the file it is given is the binary product of a plan job of the same module, which it waits for, restores from and consumes. |
| PipelineContent.ContributedJobsRun | pkg/pipeline/types.go:205-216 | The last jobs of a compiled pipeline run exactly the contributed commands under the contributed name and failure mode, produce what was declared, and publish one cleaned path for each product. |
| Building.PrepareModuleGraph | pkg/pipeline/common.go:24-51 | Fails if and only if the target subgraph is cyclic; otherwise yields that subgraph and its least topological order. |
| Building.RequestedPlanOutputs | pkg/pipeline/builder.go:82-108 | For every target, text and JSON are marked exactly when some request of that kind selects it. |
| Building.ModuleNeedsPlanJob | pkg/pipeline/builder.go:220-240 | True if and only if applying or some plan request selects the module. |
| Building.ResolveDependencyNames | pkg/pipeline/common.go:68-84 | The names of the jobs of the module's indexed dependencies, in adjacency order. |
| Building.BuildModuleJobs | pkg/pipeline/builder.go:138-162 | The loop yields, module by module in topological order, the plan and apply jobs the soundness results speak about. |
| Building.IR.ResolvePipelineResources | pkg/pipeline/builder.go:251-276 | Succeeds if and only if everything requested can be resolved; then only the contributed jobs changed, and only in what they consume, restore and, beyond the declared, depend on. |
| Compiling.BuildProjectIR | pkg/pipeline/builder.go:20-50 | Each failure happens under exactly its condition, in order; what is built is well formed, and with names apart and jobs as their constructors leave them it is built if and only if the soundness condition, which does not mention the result, holds. |
| Compiling.DemandExact | pkg/pipeline/builder.go:82-130 | A plan job exists for exactly the modules that need one; it produces text or JSON if and only if a request of that kind selects its module, always the binary, and its artifact carries exactly the paths produced. |
| BuilderSoundness.ModuleJobsInOrder | pkg/pipeline/builder.go:138-218 | The module jobs come out in an order in which every dependency is an earlier job. |
| BuilderSoundness.ModuleJobEdges | pkg/pipeline/builder.go:164-218 | Each module job's dependencies exist, and what it restores and consumes is supplied by a job it depends on. |
| BuilderSoundness.ContributedEdges | pkg/pipeline/builder.go:262-274 | A resolved contributed job depends on existing jobs only and restores exactly what they publish. |
| BuilderSoundness.ContributedSupplied | pkg/pipeline/builder.go:262-274 | Without an artifact name clash every resource a contributed job consumes is restored from its producer. |
| BuilderSoundness.CycleInTail | pkg/pipeline/builder.go:132-136 | A dependency cycle of the pipeline can only run through contributed jobs. |
| BuilderSoundness.BuilderExact | pkg/pipeline/builder.go:20-50 | The resolved pipeline is well formed if and only if plan jobs are closed under dependencies, declared dependencies exist, no consumer meets two producers under one artifact name, contributed product paths are in normal form, and what the contributed jobs declare and request of one another is acyclic. |
| BuilderSoundness.AwaitingEdges | pkg/pipeline/builder.go:262-274 | In the graph that condition speaks about, a contributed job waits for exactly what it declares and the producers of what it requests. |
| ClosureExample.ModuleRequestCanBreakClosure | pkg/pipeline/builder.go:220-240 | A plan-only build of a module without its dependency meets every assumption, has all its requests satisfied, compiles, and is still not well formed. |
| ClosureExample.AppWithoutDb | pkg/pipeline/builder.go:220-240 | The same at two concrete modules. |
| ProductPathExample.UncleanProductRejected | pkg/pipeline/contribution.go:192-239 | A contributed job with any valid product path that is not in normal form passes its constructor, resolves, and makes a pipeline that is not well formed. |
| ProductPathExample.TrailingSlashRejected | pkg/pipeline/artifacts.go:31-44 | The same at a path with a trailing slash. |
| BuilderSoundness.ClosedWhenAllAsked | pkg/pipeline/builder.go:220-240 | Applying, or requesting plans of all modules, leaves no plan job depending on a module without one. |
| LevelLaw.ApplyLayers | pkg/pipeline/builder.go:164-218 | Applying, a module is in layer L if and only if its plan job is in layer 2L, and if and only if its apply job is in layer 2L + 1. |
| LevelLaw.PlanLayers | pkg/pipeline/builder.go:164-186 | Planning only, an emitted plan job is in the layer of its module. |
| LevelLaw.LevelLaw | pkg/pipeline/schedule.go:53-80 | With every target indexed and plan jobs closed under dependencies, a module of execution level L has its plan and apply jobs in groups 2L and 2L + 1 when applying, its plan job in group L when only planning, whatever jobs are contributed. |
| Execution.RunHolds | pkg/execution/worker_pool.go:15-44 | In every state of every run the recorded results, worker phases, slots taken and first error fit together. |
| Execution.StartsAfterDependencies | pkg/execution/executor.go:150-196 | Whatever the interleaving, parallelism, outcomes and cancellations, when a job starts everything it transitively depends on has succeeded. |
| Execution.BoundedParallelism | pkg/execution/worker_pool.go:20-27 | In every state of every run the jobs running are at most the slots of the current group's semaphore. |
| Parallelism.NeverMoreThanAllowed | pkg/execution/worker_pool.go:20-27 | In every state of every run no more jobs run than the current group holds, and no more than the parallelism when that is positive. |
| Parallelism.AllowanceIsUsed | pkg/execution/worker_pool.go:20-40 | For every group some run has as many jobs running at once as parallelism and group size allow. |
| Execution.GivesUpIff | pkg/execution/worker_pool.go:31-36 | A waiting worker may give up its job if and only if, earlier in the run, the parent was cancelled or a worker reported a job that had not succeeded. |
| Execution.NeverStuck | pkg/execution/worker_pool.go:29-43 | Every unfinished state of a run has a next step other than cancelling the parent. |
| Execution.RunsAreBounded | pkg/execution/executor.go:150-196 | No run is longer than four steps a job, one a group and one for cancellation: jobs ending, every run ends. |
| Execution.ErrorsComeFromJobs | pkg/execution/executor.go:170-193 | Unless the parent was cancelled, the error of a run is the failure of a job recorded as failed. |
| Execution.FailuresSurface | pkg/execution/executor.go:170-193 | A finished run with a failed job carries an error. |
| LateStarts.LateStartIff | pkg/execution/worker_pool.go:29-40 | Some run starts a job after an error has been kept, and some run one after another's failure, if and only if some group holds two jobs. |
| LateStarts.TwoSuffice | pkg/execution/worker_pool.go:29-40 | In a group of two, a run in which the first job fails and reports and the second starts then, for every parallelism. |
| RunResults.StartsWithResources | pkg/execution/executor.go:150-196 | When a job of a valid pipeline starts, each resource it consumes is its own or was written, at that path, by a listed dependency that has succeeded and whose artifact it restores unchanged, and the path is one of that artifact's paths. |
| RunResults.Prepare | pkg/execution/executor.go:104-106 | What validation accepts is exactly the well-formed pipelines, and those always schedule. |
| RunResults.Execute | pkg/execution/executor.go:91-197 | Terminates under every interleaving; refuses exactly invalid pipelines, and otherwise returns one of the two reports below, a context error only if the parent was cancelled. |
| RunResults.CompletedRun | pkg/execution/executor.go:150-196 | A successful run lists every job exactly once in schedule order, all succeeded, with group counts adding up to the job count. |
| RunResults.StoppedRun | pkg/execution/executor.go:192-194 | A run stopped in group k lists the jobs of all earlier groups as succeeded followed by what was recorded of group k, the failed job among them if a job's failure stopped it. |
| RunResults.CurrentResult | pkg/execution/executor.go:133-148 | The loop reports the recorded groups and, in schedule order, the results recorded so far. |
| RunResults.CollectStats | pkg/execution/results.go:178-193 | Counts groups, jobs and succeeded jobs; succeeded and failed add up to the jobs. |
| RunResults.FirstFailed | pkg/execution/results.go:165-175 | The first failed job in report order, absent exactly when all succeeded. |
| PathMatching.MatchSegments | pkg/pathmatch/glob.go:45-75 | Decides whether the path can be cut into consecutive stretches, any number of segments for `**` and exactly one matching segment for every other. |
| PathMatching.MatchesConcat | pkg/pathmatch/glob.go:45-75 | A concatenated pattern matches a path if and only if the path splits into a match of each part. |
| PathMatching.CollapseKeepsMeaning | pkg/pathmatch/glob.go:50-53 | Replacing runs of `**` by a single one changes nothing. |
| PathMatching.ValidateGlob | pkg/pathmatch/glob.go:12-25 | Accepts if and only if every segment is `**` or holds no `**` and is well formed on its own. |
| PathMatching.MatchGlob | pkg/pathmatch/glob.go:29-34 | Fails exactly for invalid patterns and otherwise decides the meaning on the split pattern and path; with `**`, a slash and one ordinary segment it accepts exactly the paths whose last segment that segment matches. |
| PathMatching.SplitPathMeans | pkg/pathmatch/glob.go:36-43 | The segments are free of slashes, joined by slashes they give the text without its outer slashes, and there are none exactly for a text of slashes only. |
| PathMatching.AnyThenMeans | pkg/pathmatch/glob.go:29-75 | A pattern of `**`, a slash and one ordinary segment matches exactly the paths whose last segment that segment matches. |
| ManagedLabels.ExtractEmbedded | pkg/ci/managed_labels.go:16-72 | Whatever the body holds, extracting from an embedded body yields the normalised labels just embedded. |
| ManagedLabels.ExtractStripped | pkg/ci/managed_labels.go:26-72 | A stripped body has nothing to extract. |
| ManagedLabels.StripManagedLabelsMetadata | pkg/ci/managed_labels.go:26-38 | The loop terminates and computes the recursive removal the label laws are stated about. |
| ManagedLabels.StripLeavesNone | pkg/ci/managed_labels.go:26-38 | No record prefix is left, even when a removal joins text into a new one. |
| ManagedLabels.StripIdentity | pkg/ci/managed_labels.go:26-38 | Bodies without a record prefix are left alone. |
| ManagedLabels.StripEmbedded | pkg/ci/managed_labels.go:16-38 | Stripping an embedded body gives back the text around the record, joined by the line break embedding added. |
| ManagedLabels.EmbedTwice | pkg/ci/managed_labels.go:16-23 | Embedding into an embedded body replaces the record and adds one line break after it; embedding the same labels twice never gives the same text. |
| ManagedLabels.EmbeddedBelowMarker | pkg/ci/managed_labels.go:16-23 | With a marker in the stripped body, the record of the normalised labels stands on a line of its own right below the first one and the rest is unchanged. |
| ManagedLabels.ExtractedMeans | pkg/ci/managed_labels.go:53-72 | What is read is the payload between the first prefix and the first suffix after it, decoded and normalised, and nothing if it cannot be decoded. |
| ManagedLabels.NormalizedMeans | pkg/ci/managed_labels.go:76-95 | The normal list is strictly ascending and holds exactly the nonempty trimmed labels. |
| ManagedLabels.NormalizedIdempotent | pkg/ci/managed_labels.go:76-95 | Normalising twice is normalising once. |
| ManagedLabels.NormalizeManagedLabels | pkg/ci/managed_labels.go:76-95 | The loop computes the normal list. |
| ManagedLabels.DiffManagedLabels | pkg/ci/managed_labels.go:98-119 | Additions and removals are the two set differences, ascending, and applying them to the previous labels gives the current ones. |

## Left out

- Modules, nodes: a module is its ID, and the graph's nodes are values in a map, so sharing one node between maps is not captured. Nil receivers and arguments, defensive copies and clones do not appear.
- Error texts: a refusal keeps its phase and, where it has one, the job's name.
- `filepath.ToSlash` in glob splitting is the identity, as on POSIX hosts.
- `filepath.Match` on one segment and its syntax check are parameters of `PathMatching`; the syntax check is assumed to make matching total.
- JSON and base64 in the label record are a parameter, an injective codec whose output has no space; labels that are not valid UTF-8 are not covered.
- `container/heap` and `sort.Strings` are written out, the latter as an insertion sort.
- Timestamps, durations, environments, Terraform binaries and the init flag, shell text and group names beyond their index; the order in which a job lists what it consumes and restores.
- Custom schedulers, worker pools and event sinks; `DryRun`; the executor never consults `AllowFailure`, and neither does the model.
- Spawning a goroutine and reaching its first `select` is one step, and so are recording an error in the error group and cancelling the others.
- Diagnostics are the list of rejected edges; the library consumer queries are left out as easy.
- Guards of the resolver that cannot fire (a job's own products, products without an artifact) are not repeated.
- Job names are not injective (`a/b-c` and `a-b/c` collide), so the builder's results assume the names of all possible jobs to be apart.
- HCL parsing, discovery, git, CLI, configuration, rendering, reports, cost and update features.
