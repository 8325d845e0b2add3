/**
 Execution levels: modules grouped by the length of their longest dependency chain.
 */
module GraphLevels {
  import opened Digraph
  import opened StringOrder
  import opened ModuleGraph
  import opened Topology

  datatype LevelsResult = Levels(levels: seq<seq<string>>) | CyclicGraph

  /**
   levels[k] lists exactly the nodes of layer k in ascending order, nothing lies beyond the last
   level, and only the empty graph has an empty level: its single one.
   */
  ghost predicate LevelsOf(g: Graph, levels: seq<seq<string>>) {
    && |levels| > 0
    && (forall k: nat | k < |levels| :: Ascending(levels[k]) && Elements(levels[k]) == Layer(g, k))
    && Layer(g, |levels|) == {}
    && (g.nodes == {} <==> levels[|levels| - 1] == [])
  }

  ghost predicate Levelled(g: Graph, levels: map<string, nat>) {
    forall n | n in levels :: n in Layer(g, levels[n])
  }

  lemma LevelledIsDone(g: Graph, levels: map<string, nat>, v: string, k: nat)
    requires Levelled(g, levels) && v in levels && levels[v] < k
    ensures v in Done(g, k)
  {
    assert v in Layer(g, levels[v]);
    DoneGrows(g, levels[v] + 1, k);
  }

  /** One more than the highest level among the dependencies is the node's own layer. */
  lemma LayerFromDependencies(g: Graph, levels: map<string, nat>, n: string, highest: int)
    requires n in g.nodes && Levelled(g, levels) && highest >= -1
    requires forall v | Edge(g, n, v) :: v in levels && levels[v] <= highest
    requires highest >= 0 ==> exists v :: Edge(g, n, v) && v in levels && levels[v] == highest
    ensures n in Layer(g, highest + 1)
  {
    forall v | Edge(g, n, v) ensures v in Done(g, highest + 1) {
      LevelledIsDone(g, levels, v, highest + 1);
    }
    assert n in Done(g, highest + 2);
    if highest >= 0 {
      var v :| Edge(g, n, v) && v in levels && levels[v] == highest;
      assert v in Layer(g, highest);
    }
  }

  /** The highest level among the dependencies, or -1 when there are none. */
  method HighestDependencyLevel(deps: seq<string>, levels: map<string, nat>) returns (highest: int)
    requires forall d | d in deps :: d in levels
    ensures highest >= -1
    ensures forall d | d in deps :: levels[d] <= highest
    ensures highest >= 0 ==> exists d | d in deps :: levels[d] == highest
  {
    highest := -1;
    for k := 0 to |deps|
      invariant highest >= -1
      invariant forall d | d in deps[..k] :: levels[d] <= highest
      invariant highest >= 0 ==> exists d | d in deps :: levels[d] == highest
    {
      assert deps[..k + 1] == deps[..k] + [deps[k]];
      if levels[deps[k]] > highest {
        highest := levels[deps[k]];
      }
    }
    assert deps[..|deps|] == deps;
  }

  lemma DependenciesBefore(g: Graph, sorted: seq<string>, i: nat)
    requires DependenciesFirst(g, sorted) && i < |sorted|
    ensures forall v :: Edge(g, sorted[i], v) <==> v in Succ(g, sorted[i])
    ensures forall v :: Edge(g, sorted[i], v) ==> v in Elements(sorted[..i])
    ensures Elements(sorted[..i + 1]) == Elements(sorted[..i]) + {sorted[i]} && sorted[i] in Elements(sorted)
  {
    assert sorted[..i + 1] == sorted[..i] + [sorted[i]];
  }

  method AssignLevels(g: Graph, sorted: seq<string>) returns (levels: map<string, nat>)
    requires DependenciesFirst(g, sorted) && Elements(sorted) == g.nodes
    ensures levels.Keys == g.nodes && Levelled(g, levels)
  {
    hide Layer, Edge, Elements, DependenciesFirst;
    levels := map[];
    assert sorted[..0] == [] && Elements([]) == {} by {
      NoElements([]);
    }
    for i := 0 to |sorted|
      invariant levels.Keys == Elements(sorted[..i]) && Levelled(g, levels)
    {
      var n := sorted[i];
      DependenciesBefore(g, sorted, i);
      var highest := HighestDependencyLevel(Succ(g, n), levels);
      LayerFromDependencies(g, levels, n, highest);
      levels := levels[n := highest + 1];
    }
    assert sorted[..|sorted|] == sorted;
  }

  method HighestLevel(levels: map<string, nat>) returns (maxLevel: nat)
    ensures forall n | n in levels :: levels[n] <= maxLevel
    ensures if levels == map[] then maxLevel == 0 else exists n | n in levels :: levels[n] == maxLevel
  {
    maxLevel := 0;
    var rest := levels.Keys;
    while rest != {}
      invariant rest <= levels.Keys
      invariant forall n | n in levels && n !in rest :: levels[n] <= maxLevel
      invariant (exists n | n in levels :: levels[n] == maxLevel) || (maxLevel == 0 && rest == levels.Keys)
      decreases rest
    {
      var n :| n in rest;
      if levels[n] > maxLevel {
        maxLevel := levels[n];
      }
      rest := rest - {n};
    }
  }

  /** Bucket the nodes by level in any order, then sort every bucket. */
  method Bucket(levels: map<string, nat>, maxLevel: nat) returns (result: seq<seq<string>>)
    requires forall n | n in levels :: levels[n] <= maxLevel
    ensures |result| == maxLevel + 1
    ensures forall k | 0 <= k <= maxLevel :: Ascending(result[k])
    ensures forall k, n | 0 <= k <= maxLevel :: n in result[k] <==> n in levels && levels[n] == k
  {
    result := seq(maxLevel + 1, _ => []);
    var rest := levels.Keys;
    while rest != {}
      invariant rest <= levels.Keys && |result| == maxLevel + 1
      invariant forall k | 0 <= k <= maxLevel :: Distinct(result[k])
      invariant forall k, n | 0 <= k <= maxLevel ::
                  n in result[k] <==> n in levels && n !in rest && levels[n] == k
      decreases rest
    {
      var n :| n in rest;
      var k := levels[n];
      assert n !in result[k];
      result := result[k := result[k] + [n]];
      rest := rest - {n};
    }
    for i := 0 to |result|
      invariant |result| == maxLevel + 1
      invariant forall k | 0 <= k < i :: Ascending(result[k])
      invariant forall k | i <= k <= maxLevel :: Distinct(result[k])
      invariant forall k, n | 0 <= k <= maxLevel :: n in result[k] <==> n in levels && levels[n] == k
    {
      var sorted := SortStrings(result[i]);
      assert forall n :: n in sorted <==> n in Elements(result[i]);
      result := result[i := sorted];
    }
  }

  lemma LevelIsLayer(g: Graph, levels: map<string, nat>, k: nat)
    requires levels.Keys == g.nodes && Levelled(g, levels)
    ensures forall n :: n in Layer(g, k) <==> n in levels && levels[n] == k
  {
    forall n | n in Layer(g, k) ensures n in levels && levels[n] == k {
      DoneGrows(g, k + 1, k + 1);
      LayersDisjoint(g, n, k, levels[n]);
    }
  }

  lemma BucketIsLayer(g: Graph, levels: map<string, nat>, bucket: seq<string>, k: nat)
    requires levels.Keys == g.nodes && Levelled(g, levels)
    requires forall n :: n in bucket <==> n in levels && levels[n] == k
    ensures Elements(bucket) == Layer(g, k)
  {
    LevelIsLayer(g, levels, k);
  }

  lemma BucketsAreLayers(g: Graph, levels: map<string, nat>, result: seq<seq<string>>)
    requires levels.Keys == g.nodes && Levelled(g, levels) && |result| > 0
    requires forall n | n in levels :: levels[n] < |result|
    requires if levels == map[] then |result| == 1 else exists n | n in levels :: levels[n] == |result| - 1
    requires forall k | 0 <= k < |result| :: Ascending(result[k])
    requires forall k: nat, n | k < |result| :: n in result[k] <==> n in levels && levels[n] == k
    ensures LevelsOf(g, result)
  {
    forall k: nat | k < |result| ensures Elements(result[k]) == Layer(g, k) {
      BucketIsLayer(g, levels, result[k], k);
    }
    LevelIsLayer(g, levels, |result|);
    var last := result[|result| - 1];
    if levels == map[] {
      assert g.nodes == {};
      BucketIsLayer(g, levels, last, |result| - 1);
      NoElements(last);
    } else {
      var n :| n in levels && levels[n] == |result| - 1;
      assert n in last;
    }
  }

  method ExecutionLevels(g: DependencyGraph) returns (r: LevelsResult)
    requires g.Valid()
    ensures r.CyclicGraph? <==> !Acyclic(g.View())
    ensures r.Levels? ==> LevelsOf(g.View(), r.levels)
  {
    var sorted := TopologicalSort(g);
    if sorted.CycleDetected? {
      return CyclicGraph;
    }
    var levels := AssignLevels(g.View(), sorted.order);
    var maxLevel := HighestLevel(levels);
    var result := Bucket(levels, maxLevel);
    BucketsAreLayers(g.View(), levels, result);
    r := Levels(result);
  }
}
