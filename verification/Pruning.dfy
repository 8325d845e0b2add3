/**
 What pruning the graph to the affected modules does to the order between the modules kept.
 */
module Pruning {
  import opened Digraph
  import opened ModuleGraph

  /** v is changed or depends on a changed module. */
  ghost predicate DependsOnChanged(g: Graph, changed: seq<string>, v: string) {
    exists m :: m in changed && ReachesOrIs(g, v, m)
  }

  /** v is changed or a changed module depends on it. */
  ghost predicate NeededByChanged(g: Graph, changed: seq<string>, v: string) {
    exists m :: m in changed && ReachesOrIs(g, m, v)
  }

  /** h is g cut down to the affected modules. */
  ghost predicate PrunedTo(h: Graph, g: Graph, changed: seq<string>) {
    forall u, v :: Edge(h, u, v) <==> Edge(g, u, v) && AffectedBy(g, changed, u) && AffectedBy(g, changed, v)
  }

  /** The subgraph of a graph induced by its affected modules is the pruned graph. */
  lemma SubgraphIsPruned(g: Graph, h: Graph, changed: seq<string>, affected: seq<string>)
    requires forall v :: v in affected <==> AffectedBy(g, changed, v)
    requires RestrictedTo(h, g, Elements(affected), Elements(affected))
    ensures PrunedTo(h, g, changed)
  {
    forall u, v ensures Edge(h, u, v) <==> Edge(g, u, v) && AffectedBy(g, changed, u) && AffectedBy(g, changed, v) {
      assert u in Elements(affected) <==> AffectedBy(g, changed, u);
      assert v in Elements(affected) <==> AffectedBy(g, changed, v);
    }
  }

  /** What two sets of changes affect together is what each affects. */
  lemma AffectedByUnion(g: Graph, a: seq<string>, b: seq<string>, v: string)
    ensures AffectedBy(g, a + b, v) <==> AffectedBy(g, a, v) || AffectedBy(g, b, v)
  {
    if m :| m in a && Touches(g, m, v) {
      assert m in a + b;
    }
    if m :| m in b && Touches(g, m, v) {
      assert m in a + b;
    }
  }

  /** Some route from u to v steps directly from the dependents' side to the dependencies' side. */
  ghost predicate CrossesDirectly(g: Graph, changed: seq<string>, u: string, v: string) {
    exists a, d :: CrossingEdge(g, changed, a, d) && ReachesOrIs(g, u, a) && ReachesOrIs(g, d, v)
  }

  ghost predicate CrossingEdge(g: Graph, changed: seq<string>, a: string, d: string) {
    Edge(g, a, d) && DependsOnChanged(g, changed, a) && NeededByChanged(g, changed, d)
  }

  lemma AffectedEitherWay(g: Graph, changed: seq<string>, v: string)
    ensures AffectedBy(g, changed, v) <==> DependsOnChanged(g, changed, v) || NeededByChanged(g, changed, v)
  {
    if AffectedBy(g, changed, v) {
      var m :| m in changed && Touches(g, m, v);
      assert ReachesOrIs(g, v, m) || ReachesOrIs(g, m, v);
    }
    if m :| m in changed && ReachesOrIs(g, v, m) {
      assert Touches(g, m, v);
    }
    if m :| m in changed && ReachesOrIs(g, m, v) {
      assert Touches(g, m, v);
    }
  }

  lemma ReachesOrIsTransitive(g: Graph, u: string, v: string, w: string)
    requires ReachesOrIs(g, u, v) && ReachesOrIs(g, v, w)
    ensures ReachesOrIs(g, u, w)
  {
    if u != v && v != w {
      ReachesTransitive(g, u, v, w);
    }
  }

  lemma NeededSpreads(g: Graph, changed: seq<string>, u: string, v: string)
    requires NeededByChanged(g, changed, u) && ReachesOrIs(g, u, v)
    ensures NeededByChanged(g, changed, v) && AffectedBy(g, changed, v)
  {
    var m :| m in changed && ReachesOrIs(g, m, u);
    ReachesOrIsTransitive(g, m, u, v);
    AffectedEitherWay(g, changed, v);
  }

  lemma DependsSpreads(g: Graph, changed: seq<string>, u: string, v: string)
    requires ReachesOrIs(g, u, v) && DependsOnChanged(g, changed, v)
    ensures DependsOnChanged(g, changed, u) && AffectedBy(g, changed, u)
  {
    var m :| m in changed && ReachesOrIs(g, v, m);
    ReachesOrIsTransitive(g, u, v, m);
    AffectedEitherWay(g, changed, u);
  }

  lemma OnTheWay(g: Graph, p: seq<string>, u: string, v: string, i: nat)
    requires Path(g, p, u, v) && i < |p|
    ensures ReachesOrIs(g, u, p[i]) && ReachesOrIs(g, p[i], v)
  {
    if i > 0 {
      WalkReaches(g, p, 0, i);
    }
    if i < |p| - 1 {
      WalkReaches(g, p, i, |p| - 1);
    }
  }

  /** Reachability survives in any subgraph that keeps every edge between nodes on the way. */
  lemma SurvivesInside(g: Graph, h: Graph, u: string, v: string)
    requires Reaches(g, u, v)
    requires forall x, y | Edge(g, x, y) && ReachesOrIs(g, u, x) && ReachesOrIs(g, y, v) :: Edge(h, x, y)
    ensures Reaches(h, u, v)
  {
    var p :| Path(g, p, u, v);
    forall i, j | 0 <= i < |p| && 0 <= j < |p| && j == i + 1 ensures Edge(h, p[i], p[j]) {
      assert Edge(g, p[i], p[j]);
      OnTheWay(g, p, u, v, i);
      OnTheWay(g, p, u, v, j);
    }
    assert Path(h, p, u, v);
  }

  lemma KeptFromNeeded(g: Graph, h: Graph, changed: seq<string>, u: string, v: string)
    requires PrunedTo(h, g, changed) && Reaches(g, u, v) && NeededByChanged(g, changed, u)
    ensures Reaches(h, u, v)
  {
    forall x, y | Edge(g, x, y) && ReachesOrIs(g, u, x) && ReachesOrIs(g, y, v) ensures Edge(h, x, y) {
      NeededSpreads(g, changed, u, x);
      EdgeReaches(g, x, y);
      NeededSpreads(g, changed, x, y);
    }
    SurvivesInside(g, h, u, v);
  }

  lemma KeptToDependent(g: Graph, h: Graph, changed: seq<string>, u: string, v: string)
    requires PrunedTo(h, g, changed) && Reaches(g, u, v) && DependsOnChanged(g, changed, v)
    ensures Reaches(h, u, v)
  {
    forall x, y | Edge(g, x, y) && ReachesOrIs(g, u, x) && ReachesOrIs(g, y, v) ensures Edge(h, x, y) {
      DependsSpreads(g, changed, y, v);
      EdgeReaches(g, x, y);
      DependsSpreads(g, changed, x, y);
    }
    SurvivesInside(g, h, u, v);
  }

  lemma KeptAcross(g: Graph, h: Graph, changed: seq<string>, u: string, v: string)
    requires PrunedTo(h, g, changed) && CrossesDirectly(g, changed, u, v)
    ensures Reaches(h, u, v)
  {
    var a, d :| CrossingEdge(g, changed, a, d) && ReachesOrIs(g, u, a) && ReachesOrIs(g, d, v);
    AffectedEitherWay(g, changed, a);
    AffectedEitherWay(g, changed, d);
    assert Edge(h, a, d);
    if u != a {
      KeptToDependent(g, h, changed, u, a);
    }
    if d != v {
      KeptFromNeeded(g, h, changed, d, v);
    }
    StepThenReach(h, a, d, v);
    if u != a {
      ReachesTransitive(h, u, a, v);
    }
  }

  /** A surviving route that starts among mere dependents and ends among mere dependencies crosses directly. */
  lemma SurvivorCrosses(g: Graph, h: Graph, changed: seq<string>, u: string, v: string)
    requires PrunedTo(h, g, changed) && Reaches(h, u, v)
    requires !NeededByChanged(g, changed, u) && !DependsOnChanged(g, changed, v)
    ensures CrossesDirectly(g, changed, u, v)
  {
    var p :| Path(h, p, u, v);
    assert Path(g, p, u, v) by {
      forall i, j | 0 <= i < |p| && 0 <= j < |p| && j == i + 1 ensures Edge(g, p[i], p[j]) {
        assert Edge(h, p[i], p[j]);
      }
    }
    AffectedEitherWay(g, changed, v);
    assert Edge(h, p[|p| - 2], v);
    var k := 1;
    while !NeededByChanged(g, changed, p[k])
      invariant 1 <= k < |p| && !NeededByChanged(g, changed, p[k - 1])
      decreases |p| - k
    {
      k := k + 1;
    }
    var a, d := p[k - 1], p[k];
    assert Edge(h, a, d);
    AffectedEitherWay(g, changed, a);
    OnTheWay(g, p, u, v, k - 1);
    OnTheWay(g, p, u, v, k);
    assert CrossingEdge(g, changed, a, d);
  }

  /**
   Exactly which orderings between kept modules survive pruning to several changed modules: those
   that start at a changed module or a dependency of one, those that end at a changed module or a
   dependent of one, and those that cross directly from one side to the other.
   */
  lemma PruningExact(g: Graph, h: Graph, changed: seq<string>, u: string, v: string)
    requires PrunedTo(h, g, changed)
    ensures Reaches(h, u, v) <==>
            Reaches(g, u, v) &&
            (NeededByChanged(g, changed, u) || DependsOnChanged(g, changed, v) || CrossesDirectly(g, changed, u, v))
  {
    if Reaches(h, u, v) {
      ReachesMonotone(h, g, u, v);
      if !NeededByChanged(g, changed, u) && !DependsOnChanged(g, changed, v) {
        SurvivorCrosses(g, h, changed, u, v);
      }
    } else if Reaches(g, u, v) {
      if NeededByChanged(g, changed, u) {
        KeptFromNeeded(g, h, changed, u, v);
      } else if DependsOnChanged(g, changed, v) {
        KeptToDependent(g, h, changed, u, v);
      } else if CrossesDirectly(g, changed, u, v) {
        KeptAcross(g, h, changed, u, v);
      }
    }
  }

  /** For one changed module pruning loses no ordering between kept modules, cycles or not. */
  lemma SingleChangeKeepsOrder(g: Graph, h: Graph, m: string, u: string, v: string)
    requires PrunedTo(h, g, [m]) && AffectedBy(g, [m], u) && AffectedBy(g, [m], v)
    ensures Reaches(h, u, v) <==> Reaches(g, u, v)
  {
    PruningExact(g, h, [m], u, v);
    if Reaches(g, u, v) && !NeededByChanged(g, [m], u) && !DependsOnChanged(g, [m], v) {
      AffectedEitherWay(g, [m], u);
      AffectedEitherWay(g, [m], v);
      assert m in [m];
      assert ReachesOrIs(g, m, m);
      assert ReachesOrIs(g, u, m) && Reaches(g, m, v);
      var w := FirstStep(g, m, v);
      EdgeReaches(g, m, w);
      assert CrossingEdge(g, [m], m, w);
    }
  }

  /** Scoping to one module, towards dependencies or dependents, loses no ordering either. */
  lemma ScopeKeepsOrder(g: Graph, h: Graph, m: string, dependents: bool, u: string, v: string)
    requires forall x, y ::
             Edge(h, x, y) <==> Edge(g, x, y) && InScope(g, m, dependents, x) && InScope(g, m, dependents, y)
    requires InScope(g, m, dependents, u) && InScope(g, m, dependents, v)
    ensures Reaches(h, u, v) <==> Reaches(g, u, v)
  {
    if Reaches(h, u, v) {
      ReachesMonotone(h, g, u, v);
    } else if Reaches(g, u, v) {
      forall x, y | Edge(g, x, y) && ReachesOrIs(g, u, x) && ReachesOrIs(g, y, v) ensures Edge(h, x, y) {
        EdgeReaches(g, x, y);
        if dependents {
          ReachesOrIsTransitive(g, y, v, m);
          ReachesOrIsTransitive(g, x, y, m);
        } else {
          ReachesOrIsTransitive(g, m, u, x);
          ReachesOrIsTransitive(g, m, x, y);
        }
      }
      SurvivesInside(g, h, u, v);
    }
  }

  /** The adjacency of app -> {left, mid}, mid -> db, right -> db. */
  const DIAMOND: Graph := Graph({"app", "left", "mid", "right", "db"},
                                map["app" := ["left", "mid"], "mid" := ["db"], "right" := ["db"]])

  lemma DiamondReach(u: string, s: set<string>, v: string)
    requires forall x :: Edge(DIAMOND, u, x) ==> x in s
    requires forall x, y :: x in s && Edge(DIAMOND, x, y) ==> y in s
    requires v !in s
    ensures !Reaches(DIAMOND, u, v)
  {
    if Reaches(DIAMOND, u, v) {
      ReachedStaysInside(DIAMOND, s, u, v);
    }
  }

  lemma DiamondEdges(x: string, y: string)
    ensures Edge(DIAMOND, x, y) <==>
            (x == "app" && (y == "left" || y == "mid")) || ((x == "mid" || x == "right") && y == "db")
  {
  }

  /** The example is a graph the planner can hold: closed, without repeated edges, and acyclic. */
  lemma DiamondHolds()
    ensures Closed(DIAMOND) && NoRepeats(DIAMOND) && Acyclic(DIAMOND)
  {
    forall u, v | Edge(DIAMOND, u, v) ensures u in DIAMOND.nodes && v in DIAMOND.nodes {
      DiamondEdges(u, v);
    }
    forall u ensures Distinct(Succ(DIAMOND, u)) {
      assert u in DIAMOND.adj ==> u == "app" || u == "mid" || u == "right";
    }
    var order := ["db", "left", "mid", "right", "app"];
    assert Elements(order) == DIAMOND.nodes;
    forall i, v | 0 <= i < |order| && Edge(DIAMOND, order[i], v) ensures v in order[..i] {
      DiamondEdges(order[i], v);
      assert i >= 1 ==> order[..i][0] == "db";
      assert i == 4 ==> order[..i][1] == "left" && order[..i][2] == "mid";
    }
    OrderedIsAcyclic(DIAMOND, order);
  }

  lemma MidUnaffected()
    ensures !AffectedBy(DIAMOND, ["left", "right"], "mid")
  {
    forall x, y ensures Edge(DIAMOND, x, y) <==>
                        (x == "app" && (y == "left" || y == "mid")) || ((x == "mid" || x == "right") && y == "db")
    {
      DiamondEdges(x, y);
    }
    DiamondReach("mid", {"db"}, "left");
    DiamondReach("mid", {"db"}, "right");
    DiamondReach("left", {}, "mid");
    DiamondReach("right", {"db"}, "mid");
    assert !Touches(DIAMOND, "left", "mid") && !Touches(DIAMOND, "right", "mid");
  }

  lemma AppCutOff(h: Graph)
    requires PrunedTo(h, DIAMOND, ["left", "right"])
    ensures !Reaches(h, "app", "db")
  {
    MidUnaffected();
    forall x, y | Edge(h, x, y) && (x == "app" || x == "left") ensures y == "left" {
      assert Edge(DIAMOND, x, y);
      DiamondEdges(x, y);
    }
    if Reaches(h, "app", "db") {
      ReachedStaysInside(h, {"left"}, "app", "db");
    }
  }

  /**
   With two changed modules an ordering can be lost: app depends on db through mid alone, both are
   affected by a change of left and right, mid is not, and after pruning the ordering is gone.
   */
  lemma SeveralChangesCanLoseOrder(h: Graph)
    requires PrunedTo(h, DIAMOND, ["left", "right"])
    ensures AffectedBy(DIAMOND, ["left", "right"], "app") && AffectedBy(DIAMOND, ["left", "right"], "db")
    ensures Reaches(DIAMOND, "app", "db") && !Reaches(h, "app", "db")
  {
    SeveralAffected();
    EdgeReaches(DIAMOND, "app", "mid");
    EdgeReaches(DIAMOND, "mid", "db");
    ReachesTransitive(DIAMOND, "app", "mid", "db");
    AppCutOff(h);
  }

  const PRUNED_DIAMOND: Graph := Graph({"app", "left", "right", "db"}, map["app" := ["left"], "right" := ["db"]])

  /** What is left of the example after pruning. */
  lemma DiamondPruned()
    ensures PrunedTo(PRUNED_DIAMOND, DIAMOND, ["left", "right"])
  {
    var changed := ["left", "right"];
    SeveralAffected();
    MidUnaffected();
    forall u, v ensures Edge(PRUNED_DIAMOND, u, v) <==>
                        Edge(DIAMOND, u, v) && AffectedBy(DIAMOND, changed, u) && AffectedBy(DIAMOND, changed, v)
    {
      DiamondEdges(u, v);
      assert Edge(PRUNED_DIAMOND, u, v) <==> (u == "app" && v == "left") || (u == "right" && v == "db");
    }
  }

  lemma SeveralAffected()
    ensures forall x | x in {"app", "left", "right", "db"} :: AffectedBy(DIAMOND, ["left", "right"], x)
  {
    EdgeReaches(DIAMOND, "app", "left");
    EdgeReaches(DIAMOND, "right", "db");
    assert "left" in ["left", "right"] && Touches(DIAMOND, "left", "app") && Touches(DIAMOND, "left", "left");
    assert "right" in ["left", "right"] && Touches(DIAMOND, "right", "db") && Touches(DIAMOND, "right", "right");
  }
}
