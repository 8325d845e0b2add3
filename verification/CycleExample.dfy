/**
 A graph with two simple cycles of which cycle detection reports one: both run through the same two
 nodes, and the search follows the edge into the shared part only once.
 */
module CycleExample {
  import opened Digraph
  import opened ModuleGraph
  import opened DepthFirst
  import opened CycleCoverage

  /** a depends on b and c, these on d, and d on a. */
  function Shared(a: string, b: string, c: string, d: string): Graph {
    Graph({a, b, c, d}, map[a := [b, c], b := [d], c := [d], d := [a]])
  }

  ghost predicate Apart(a: string, b: string, c: string, d: string) {
    a != b && a != c && a != d && b != c && b != d && c != d
  }

  lemma SharedEdges(a: string, b: string, c: string, d: string)
    requires Apart(a, b, c, d)
    ensures var g := Shared(a, b, c, d);
            && Closed(g) && NoRepeats(g)
            && Succ(g, a) == [b, c] && Succ(g, b) == [d] && Succ(g, c) == [d] && Succ(g, d) == [a]
  {
    var g := Shared(a, b, c, d);
    forall u, v | Edge(g, u, v) ensures u in g.nodes && v in g.nodes {
      assert u in g.adj && v in g.adj[u];
    }
    forall u ensures Distinct(Succ(g, u)) {
      assert u in g.adj ==> u == a || u == b || u == c || u == d;
    }
  }

  lemma OneTarget(g: Graph, v: string, s: Search)
    requires Closed(g) && v in g.nodes
    ensures FollowAll(g, [v], s) == Follow(g, v, s)
  {
    assert [v][..0] == [];
  }

  lemma TwoTargets(g: Graph, v: string, w: string, s: Search)
    requires Closed(g) && v in g.nodes && w in g.nodes
    ensures FollowAll(g, [v, w], s) == Follow(g, w, Follow(g, v, s))
  {
    OneTarget(g, v, s);
    assert [v, w][..1] == [v];
  }

  lemma VisitLast(a: string, b: string, c: string, d: string, s: Search)
    requires Apart(a, b, c, d) && s.path == [a, b] && a in s.entry && d !in s.entry
    ensures Closed(Shared(a, b, c, d))
    ensures Visit(Shared(a, b, c, d), d, s) == Search(s.entry[d := [a, b, d]], [a, b], s.cycles + [[a, b, d]])
  {
    var g := Shared(a, b, c, d);
    SharedEdges(a, b, c, d);
    OneTarget(g, a, Entered(s, d));
    assert s.path + [d] == [a, b, d] && a in [a, b, d];
    CutAtFirst([a, b, d], 0);
  }

  lemma VisitLeft(a: string, b: string, c: string, d: string, s: Search)
    requires Apart(a, b, c, d) && s.path == [a] && a in s.entry && b !in s.entry && d !in s.entry
    ensures Closed(Shared(a, b, c, d))
    ensures Visit(Shared(a, b, c, d), b, s) == Search(s.entry[b := [a, b]][d := [a, b, d]], [a], s.cycles + [[a, b, d]])
  {
    var g := Shared(a, b, c, d);
    SharedEdges(a, b, c, d);
    OneTarget(g, d, Entered(s, b));
    VisitLast(a, b, c, d, Entered(s, b));
  }

  lemma VisitRight(a: string, b: string, c: string, d: string, s: Search)
    requires Apart(a, b, c, d) && s.path == [a] && c !in s.entry && d in s.entry
    ensures Closed(Shared(a, b, c, d))
    ensures Visit(Shared(a, b, c, d), c, s) == Search(s.entry[c := [a, c]], [a], s.cycles)
  {
    var g := Shared(a, b, c, d);
    SharedEdges(a, b, c, d);
    OneTarget(g, d, Entered(s, c));
    assert s.path + [c] == [a, c] && d !in [a, c];
  }

  lemma VisitFirst(a: string, b: string, c: string, d: string)
    requires Apart(a, b, c, d)
    ensures Closed(Shared(a, b, c, d))
    ensures Visit(Shared(a, b, c, d), a, START) ==
            Search(map[a := [a], b := [a, b], d := [a, b, d], c := [a, c]], [], [[a, b, d]])
  {
    var g := Shared(a, b, c, d);
    SharedEdges(a, b, c, d);
    var s := Entered(START, a);
    assert s.path == [a];
    TwoTargets(g, b, c, s);
    VisitLeft(a, b, c, d, s);
    var t := Search(s.entry[b := [a, b]][d := [a, b, d]], [a], [[a, b, d]]);
    assert Follow(g, b, s) == t;
    VisitRight(a, b, c, d, t);
  }

  /** When the first root reaches every node, the other roots add nothing. */
  lemma {:induction false} FirstRootIsAll(g: Graph, order: seq<string>, k: nat)
    requires Closed(g) && (forall v | v in order :: v in g.nodes) && 0 < k <= |order|
    requires forall v | v in order :: v in Visit(g, order[0], START).entry
    ensures SearchAll(g, order[..k]) == Visit(g, order[0], START)
  {
    hide Visit;
    SearchAllSnoc(g, order, k - 1);
    if k == 1 {
      RootsNone(g, order);
    } else {
      FirstRootIsAll(g, order, k - 1);
      assert order[k - 1] in order;
    }
  }

  lemma FirstRootReports(g: Graph, order: seq<string>)
    requires Closed(g) && RootOrder(g, order) && order != [] && order[0] in g.nodes
    requires forall v | v in order :: v in Visit(g, order[0], START).entry
    ensures Reported(g, order) == Visit(g, order[0], START).cycles
  {
    hide Visit, SearchAll;
    assert forall v | v in order :: v in Elements(order);
    FirstRootIsAll(g, order, |order|);
    assert order[..|order|] == order;
  }

  lemma SharedOrder(a: string, b: string, c: string, d: string)
    requires Apart(a, b, c, d)
    ensures RootOrder(Shared(a, b, c, d), [a, b, c, d])
    ensures forall v | v in [a, b, c, d] :: v in Shared(a, b, c, d).nodes
  {
  }

  lemma AllEntered(a: string, b: string, c: string, d: string)
    requires Apart(a, b, c, d)
    ensures Closed(Shared(a, b, c, d))
    ensures forall v | v in [a, b, c, d] :: v in Visit(Shared(a, b, c, d), a, START).entry
  {
    VisitFirst(a, b, c, d);
  }

  /** Starting at a, the search reports the cycle through b alone. */
  lemma SharedReport(a: string, b: string, c: string, d: string)
    requires Apart(a, b, c, d)
    ensures var g, order := Shared(a, b, c, d), [a, b, c, d];
            Closed(g) && RootOrder(g, order) && Reported(g, order) == [[a, b, d]]
  {
    var g, order := Shared(a, b, c, d), [a, b, c, d];
    VisitFirst(a, b, c, d);
    SharedOrder(a, b, c, d);
    AllEntered(a, b, c, d);
    hide Visit, Shared, RootOrder, Reported;
    FirstRootReports(g, order);
  }

  /** The cycle through c is missed, and with it the promise to report all cycles. */
  lemma CycleMissed(a: string, b: string, c: string, d: string)
    requires Apart(a, b, c, d)
    ensures var g, order := Shared(a, b, c, d), [a, b, c, d];
            && Closed(g) && NoRepeats(g) && RootOrder(g, order)
            && SimpleCycle(g, [a, c, d]) && !Covers(Reported(g, order), [a, c, d]) && !SinglePaths(g)
  {
    var g, order := Shared(a, b, c, d), [a, b, c, d];
    SharedEdges(a, b, c, d);
    SharedReport(a, b, c, d);
    assert Edge(g, a, c) && Edge(g, c, d) && Edge(g, d, a);
    assert SimpleCycle(g, [a, c, d]);
    OtherNotCovered(a, b, c, d);
    assert Edge(g, a, b) && Edge(g, b, d);
    TwoPaths(g, a, b, c, d);
  }

  lemma OtherNotCovered(a: string, b: string, c: string, d: string)
    requires Apart(a, b, c, d)
    ensures !Covers([[a, b, d]], [a, c, d])
  {
    assert c !in [a, b, d] && [a, c, d][1] == c;
    forall e | e in [[a, b, d]] ensures !Rotation(e, [a, c, d]) {
      if Rotation(e, [a, c, d]) {
        RotationMembers(e, [a, c, d]);
      }
    }
  }

  lemma TwoPaths(g: Graph, a: string, b: string, c: string, d: string)
    requires Apart(a, b, c, d) && Edge(g, a, b) && Edge(g, b, d) && Edge(g, a, c) && Edge(g, c, d) && Edge(g, d, a)
    ensures !SinglePaths(g)
  {
    assert SimplePath(g, [a, b, d], a, d) && SimplePath(g, [a, c, d], a, d);
    assert [a, b, d][1] != [a, c, d][1];
    EdgeReaches(g, d, a);
    assert Path(g, [a, b, d], a, d);
  }

  lemma RotationMembers(c: seq<string>, d: seq<string>)
    requires Rotation(c, d)
    ensures forall x | x in d :: x in c
  {
    var k :| RotatedBy(c, d, k);
    assert c == c[..k] + c[k..];
  }
}
