/**
 Finite directed graphs as the planner uses them: an edge u -> v says that u depends on v.
 Walks, reachability in one or more steps, cycles, and the layers obtained by repeatedly
 releasing every node whose dependencies were released before.
 */
module Digraph {

  datatype Graph = Graph(nodes: set<string>, adj: map<string, seq<string>>)

  function Succ(g: Graph, u: string): seq<string> {
    if u in g.adj then g.adj[u] else []
  }

  predicate Edge(g: Graph, u: string, v: string) {
    v in Succ(g, u)
  }

  /** Every edge joins two nodes. */
  ghost predicate Closed(g: Graph) {
    forall u, v :: Edge(g, u, v) ==> u in g.nodes && v in g.nodes
  }

  ghost predicate Walk(g: Graph, p: seq<string>) {
    |p| > 0 && forall i, j | 0 <= i < |p| && 0 <= j < |p| && j == i + 1 :: Edge(g, p[i], p[j])
  }

  ghost predicate WalkFrom(g: Graph, p: seq<string>, u: string) {
    Walk(g, p) && p[0] == u
  }

  /** A walk of one or more edges. */
  ghost predicate Path(g: Graph, p: seq<string>, u: string, v: string) {
    WalkFrom(g, p, u) && |p| >= 2 && p[|p| - 1] == v
  }

  ghost predicate Reaches(g: Graph, u: string, v: string) {
    exists p :: Path(g, p, u, v)
  }

  ghost predicate ReachesOrIs(g: Graph, u: string, v: string) {
    u == v || Reaches(g, u, v)
  }

  ghost predicate Acyclic(g: Graph) {
    forall u :: !Reaches(g, u, u)
  }

  /** Some cycle is u's own or lies among what u transitively depends on. */
  ghost predicate SeesCycle(g: Graph, u: string) {
    exists c :: ReachesOrIs(g, u, c) && Reaches(g, c, c)
  }

  function Elements(s: seq<string>): set<string> {
    set x | x in s
  }

  ghost predicate Distinct<T(!new)>(s: seq<T>) {
    forall i, j | 0 <= i < j < |s| :: s[i] != s[j]
  }

  lemma NoElements(s: seq<string>)
    ensures Elements(s) == {} <==> s == []
  {
    if s != [] {
      assert s[0] in Elements(s);
    }
  }

  lemma ElementsSnoc(s: seq<string>, x: string)
    ensures Elements(s + [x]) == Elements(s) + {x}
  {
  }

  lemma DistinctConcat(a: seq<string>, b: seq<string>)
    requires Distinct(a) && Distinct(b) && forall n | n in b :: n !in a
    ensures Distinct(a + b)
  {
    var c := a + b;
    forall i, j | 0 <= i < j < |c| ensures c[i] != c[j] {
      if i < |a| && |a| <= j {
        assert c[j] in b;
      }
    }
  }

  // ---------------------------------------------------------------- reachability

  lemma EdgeReaches(g: Graph, u: string, v: string)
    requires Edge(g, u, v)
    ensures Reaches(g, u, v)
  {
    assert Path(g, [u, v], u, v);
  }

  lemma WalkConcat(g: Graph, p: seq<string>, q: seq<string>)
    requires Walk(g, p) && Walk(g, q) && p[|p| - 1] == q[0]
    ensures Walk(g, p + q[1..])
  {
    var r := p + q[1..];
    forall i, j | 0 <= i < |r| && 0 <= j < |r| && j == i + 1
      ensures Edge(g, r[i], r[j])
    {
      if i >= |p| - 1 {
        assert r[i] == q[i - |p| + 1] && r[j] == q[j - |p| + 1];
      }
    }
  }

  lemma ReachesTransitive(g: Graph, u: string, v: string, w: string)
    requires Reaches(g, u, v) && Reaches(g, v, w)
    ensures Reaches(g, u, w)
  {
    var p :| Path(g, p, u, v);
    var q :| Path(g, q, v, w);
    WalkConcat(g, p, q);
    assert Path(g, p + q[1..], u, w);
  }

  lemma WalkCons(g: Graph, u: string, q: seq<string>)
    requires Walk(g, q) && Edge(g, u, q[0])
    ensures Walk(g, [u] + q)
  {
    var r := [u] + q;
    forall i, j | 0 <= i < |r| && 0 <= j < |r| && j == i + 1
      ensures Edge(g, r[i], r[j])
    {
      assert r[j] == q[i];
    }
  }

  lemma WalkSnoc(g: Graph, p: seq<string>, x: string)
    requires Walk(g, p) && Edge(g, p[|p| - 1], x)
    ensures Walk(g, p + [x])
  {
    var r := p + [x];
    forall i, j | 0 <= i < |r| && 0 <= j < |r| && j == i + 1 ensures Edge(g, r[i], r[j]) {
      if j < |p| {
        assert Edge(g, p[i], p[j]);
      }
    }
  }

  lemma WalkSlice(g: Graph, p: seq<string>, i: nat, j: nat)
    requires Walk(g, p) && i < j <= |p|
    ensures Walk(g, p[i..j])
  {
  }

  lemma WalkReaches(g: Graph, p: seq<string>, i: nat, j: nat)
    requires Walk(g, p) && i < j < |p|
    ensures Reaches(g, p[i], p[j])
  {
    WalkSlice(g, p, i, j + 1);
    assert Path(g, p[i..j + 1], p[i], p[j]);
  }

  lemma FirstStep(g: Graph, u: string, v: string) returns (w: string)
    requires Reaches(g, u, v)
    ensures Edge(g, u, w) && ReachesOrIs(g, w, v)
  {
    var p :| Path(g, p, u, v);
    w := p[1];
    if |p| > 2 {
      WalkReaches(g, p, 1, |p| - 1);
    }
  }

  lemma LastStep(g: Graph, u: string, v: string) returns (w: string)
    requires Reaches(g, u, v)
    ensures Edge(g, w, v) && ReachesOrIs(g, u, w)
  {
    var p :| Path(g, p, u, v);
    w := p[|p| - 2];
    if |p| > 2 {
      WalkReaches(g, p, 0, |p| - 2);
    }
  }

  lemma StepThenReach(g: Graph, u: string, w: string, v: string)
    requires Edge(g, u, w) && ReachesOrIs(g, w, v)
    ensures Reaches(g, u, v)
  {
    EdgeReaches(g, u, w);
    if w != v {
      ReachesTransitive(g, u, w, v);
    }
  }

  lemma ReachThenStep(g: Graph, u: string, w: string, v: string)
    requires ReachesOrIs(g, u, w) && Edge(g, w, v)
    ensures Reaches(g, u, v)
  {
    EdgeReaches(g, w, v);
    if u != w {
      ReachesTransitive(g, u, w, v);
    }
  }

  /** A set that holds u's dependencies and is closed under dependencies holds all u reaches. */
  lemma ReachedStaysInside(g: Graph, s: set<string>, u: string, v: string)
    requires forall x :: Edge(g, u, x) ==> x in s
    requires forall x, y :: x in s && Edge(g, x, y) ==> y in s
    requires Reaches(g, u, v)
    ensures v in s
  {
    var p :| Path(g, p, u, v);
    var i := 1;
    while i < |p| - 1
      invariant 1 <= i < |p|
      invariant p[i] in s
    {
      i := i + 1;
    }
  }

  lemma ReachEndsAreNodes(g: Graph, u: string, v: string)
    requires Closed(g) && Reaches(g, u, v)
    ensures u in g.nodes
    ensures v in g.nodes
  {
    var x := FirstStep(g, u, v);
    var y := LastStep(g, u, v);
  }

  /** Reachability depends on the edge relation alone, not on how adjacency lists are ordered. */
  lemma ReachesMonotone(g: Graph, h: Graph, u: string, v: string)
    requires forall x, y :: Edge(g, x, y) ==> Edge(h, x, y)
    requires Reaches(g, u, v)
    ensures Reaches(h, u, v)
  {
    var p :| Path(g, p, u, v);
    assert Path(h, p, u, v);
  }

  lemma SameEdgesSameCycles(g: Graph, h: Graph)
    requires forall x, y :: Edge(g, x, y) <==> Edge(h, x, y)
    ensures Acyclic(g) <==> Acyclic(h)
  {
    forall u ensures Reaches(g, u, u) <==> Reaches(h, u, u) {
      if Reaches(g, u, u) {
        ReachesMonotone(g, h, u, u);
      }
      if Reaches(h, u, u) {
        ReachesMonotone(h, g, u, u);
      }
    }
  }

  // ---------------------------------------------------------------- acyclicity by ordering

  /** Each element's dependencies occur strictly earlier. */
  ghost predicate DependenciesFirst(g: Graph, r: seq<string>) {
    forall i, v | 0 <= i < |r| && Edge(g, r[i], v) :: v in r[..i]
  }

  lemma {:induction false} OrderedHasNoCycle(g: Graph, r: seq<string>, u: string)
    requires DependenciesFirst(g, r) && u in r
    ensures !SeesCycle(g, u)
    decreases |r|
  {
    var i :| 0 <= i < |r| && r[i] == u;
    if SeesCycle(g, u) {
      var c :| ReachesOrIs(g, u, c) && Reaches(g, c, c);
      var w := FirstStep(g, u, c);
      assert w in r[..i];
      assert DependenciesFirst(g, r[..i]) by { PrefixOrdered(g, r, i); }
      OrderedHasNoCycle(g, r[..i], w);
      assert false;
    }
  }

  lemma PrefixOrdered(g: Graph, r: seq<string>, n: nat)
    requires DependenciesFirst(g, r) && n <= |r|
    ensures DependenciesFirst(g, r[..n])
  {
    forall i, v | 0 <= i < n && Edge(g, r[..n][i], v)
      ensures v in r[..n][..i]
    {
      assert r[..n][..i] == r[..i];
    }
  }

  lemma OrderedSnoc(g: Graph, s: seq<string>, x: string)
    requires DependenciesFirst(g, s) && forall v | v in Succ(g, x) :: v in s
    ensures DependenciesFirst(g, s + [x])
  {
    var r := s + [x];
    forall i, v | 0 <= i < |r| && Edge(g, r[i], v) ensures v in r[..i] {
      if i < |s| {
        assert r[..i] == s[..i];
      } else {
        assert r[..i] == s;
      }
    }
  }

  lemma AcyclicIffNoneSees(g: Graph)
    requires Closed(g)
    ensures Acyclic(g) <==> forall u | u in g.nodes :: !SeesCycle(g, u)
  {
    if Acyclic(g) {
      assert forall u :: !SeesCycle(g, u);
    }
    if !Acyclic(g) {
      var u :| Reaches(g, u, u);
      ReachEndsAreNodes(g, u, u);
      assert ReachesOrIs(g, u, u);
    }
  }

  lemma OrderedIsAcyclic(g: Graph, r: seq<string>)
    requires Closed(g) && DependenciesFirst(g, r) && g.nodes <= Elements(r)
    ensures Acyclic(g)
  {
    forall u | u in g.nodes ensures !SeesCycle(g, u) {
      OrderedHasNoCycle(g, r, u);
    }
    AcyclicIffNoneSees(g);
  }

  // ---------------------------------------------------------------- layers

  /** The nodes all of whose dependencies lie in s. */
  ghost function Ready(g: Graph, s: set<string>): set<string> {
    set u | u in g.nodes && forall v | Edge(g, u, v) :: v in s
  }

  /** What is released after k rounds. */
  ghost function Done(g: Graph, k: nat): set<string> {
    if k == 0 then {} else Ready(g, Done(g, k - 1))
  }

  /** What round k (counted from zero) releases. */
  ghost function Layer(g: Graph, k: nat): set<string> {
    Done(g, k + 1) - Done(g, k)
  }

  lemma {:induction false} DoneGrows(g: Graph, k: nat, m: nat)
    requires k <= m
    ensures Done(g, k) <= Done(g, m) <= g.nodes
    decreases m
  {
    if k > 0 {
      DoneGrows(g, k - 1, m - 1);
    }
  }

  lemma {:induction false} ReleasedHasShortChains(g: Graph, k: nat, p: seq<string>)
    requires Walk(g, p) && p[0] in Done(g, k)
    ensures |p| <= k
  {
    if |p| > 1 {
      assert Edge(g, p[0], p[1]);
      WalkSlice(g, p, 1, |p|);
      ReleasedHasShortChains(g, k - 1, p[1..]);
    }
  }

  lemma {:induction false} UnreleasedHasLongChain(g: Graph, k: nat, u: string) returns (p: seq<string>)
    requires u in g.nodes && Closed(g) && u !in Done(g, k)
    ensures WalkFrom(g, p, u) && |p| > k
  {
    p := [u];
    if k > 0 {
      var v :| Edge(g, u, v) && v !in Done(g, k - 1);
      var q := UnreleasedHasLongChain(g, k - 1, v);
      WalkCons(g, u, q);
      p := [u] + q;
    }
  }

  /** After k rounds exactly those nodes are out from which no chain has more than k nodes. */
  lemma DoneMeansShortChains(g: Graph, k: nat, u: string)
    requires u in g.nodes && Closed(g)
    ensures u in Done(g, k) <==> forall p | WalkFrom(g, p, u) :: |p| <= k
  {
    if u in Done(g, k) {
      forall p | WalkFrom(g, p, u) ensures |p| <= k {
        ReleasedHasShortChains(g, k, p);
      }
    } else {
      var p := UnreleasedHasLongChain(g, k, u);
    }
  }

  /** Layer k holds exactly the nodes whose longest dependency chain has k edges. */
  lemma LayerIsLongestChain(g: Graph, k: nat, u: string)
    requires u in g.nodes && Closed(g)
    ensures u in Layer(g, k) <==>
            (exists p :: WalkFrom(g, p, u) && |p| == k + 1) && (forall p | WalkFrom(g, p, u) :: |p| <= k + 1)
  {
    DoneMeansShortChains(g, k, u);
    DoneMeansShortChains(g, k + 1, u);
  }

  /** No layering that puts dependencies strictly earlier puts any node before its layer. */
  lemma {:induction false} LayersAreEarliest(g: Graph, lambda: map<string, nat>, u: string, k: nat)
    requires Closed(g) && u in Layer(g, k)
    requires lambda.Keys == g.nodes
    requires forall x, y | x in g.nodes && Edge(g, x, y) :: lambda[y] < lambda[x]
    ensures u in g.nodes && k <= lambda[u]
    decreases k
  {
    if k == 0 {
      DoneGrows(g, 1, 1);
    } else {
      var v := LayerBelow(g, u, k);
      hide Layer, Closed;
      LayersAreEarliest(g, lambda, v, k - 1);
    }
  }

  lemma LayerBelow(g: Graph, u: string, k: nat) returns (v: string)
    requires k > 0 && u in Layer(g, k)
    ensures u in g.nodes && Edge(g, u, v) && v in Layer(g, k - 1)
  {
    DoneGrows(g, k + 1, k + 1);
    v :| Edge(g, u, v) && v !in Done(g, k - 1);
  }

  lemma {:induction false} StableStays(g: Graph, k: nat, m: nat)
    requires Done(g, k) == Done(g, k + 1) && k <= m
    ensures Done(g, m) == Done(g, k)
    decreases m - k
  {
    if k < m {
      StableStays(g, k + 1, m);
    }
  }

  lemma {:induction false} GrowsOrStable(g: Graph, k: nat)
    ensures |Done(g, k)| >= k || exists m: nat | m < k :: Done(g, m) == Done(g, m + 1)
  {
    if k > 0 {
      GrowsOrStable(g, k - 1);
      DoneGrows(g, k - 1, k);
      if Done(g, k - 1) != Done(g, k) {
        StrictSubsetIsSmaller(Done(g, k - 1), Done(g, k));
      } else {
        assert Done(g, k - 1) == Done(g, (k - 1) + 1);
      }
    }
  }

  lemma StrictSubsetIsSmaller(a: set<string>, b: set<string>)
    requires a <= b && a != b
    ensures |a| < |b|
  {
    assert b == a + (b - a);
  }

  lemma OneMoreLeavesFewer(nodes: set<string>, before: set<string>, after: set<string>, x: string)
    requires x in nodes && x !in before && after == before + {x}
    ensures |nodes - after| < |nodes - before|
  {
    assert nodes - before == (nodes - after) + {x};
  }

  lemma SubsetIsNoLarger(a: set<string>, b: set<string>)
    requires a <= b
    ensures |a| <= |b|
    ensures |a| == |b| ==> a == b
  {
    if a != b {
      StrictSubsetIsSmaller(a, b);
    }
  }

  /** As many rounds as there are nodes release everything that is ever released. */
  lemma DoneSettles(g: Graph)
    ensures Done(g, |g.nodes|) == Done(g, |g.nodes| + 1)
  {
    var n := |g.nodes|;
    GrowsOrStable(g, n);
    DoneGrows(g, n, n + 1);
    SubsetIsNoLarger(Done(g, n), g.nodes);
    if m: nat :| m < n && Done(g, m) == Done(g, m + 1) {
      StableStays(g, m, n);
      StableStays(g, m, n + 1);
    } else {
      SubsetIsNoLarger(Done(g, n + 1), g.nodes);
    }
  }

  lemma {:induction false} ReleasedSeesNoCycle(g: Graph, k: nat, u: string)
    requires u in Done(g, k)
    ensures !SeesCycle(g, u)
  {
    if SeesCycle(g, u) {
      var c :| ReachesOrIs(g, u, c) && Reaches(g, c, c);
      var w := FirstStep(g, u, c);
      ReleasedSeesNoCycle(g, k - 1, w);
      assert false;
    }
  }

  lemma {:induction false} RepeatOrDistinct(p: seq<string>, s: set<string>)
    requires forall x | x in p :: x in s
    requires |p| > |s|
    ensures !Distinct(p)
  {
    if Distinct(p) {
      DistinctCount(p);
      SubsetIsNoLarger(Elements(p), s);
    }
  }

  lemma {:induction false} DistinctCount(p: seq<string>)
    requires Distinct(p)
    ensures |Elements(p)| == |p|
  {
    if p != [] {
      var q := p[..|p| - 1];
      DistinctCount(q);
      assert Elements(p) == Elements(q) + {p[|p| - 1]};
      assert p[|p| - 1] !in q;
    }
  }

  ghost predicate Stuck(g: Graph, s: set<string>, x: string) {
    exists y :: Edge(g, x, y) && y in s
  }

  /** A walk of any length among nodes that are never released. */
  lemma {:induction false} LongStuckWalk(g: Graph, s: set<string>, u: string, n: nat) returns (p: seq<string>)
    requires u in s && n > 0
    requires forall x {:trigger Stuck(g, s, x)} | x in s :: Stuck(g, s, x)
    ensures WalkFrom(g, p, u) && |p| == n && forall x | x in p :: x in s
    decreases n
  {
    if n == 1 {
      p := [u];
    } else {
      assert Stuck(g, s, u);
      var v :| Edge(g, u, v) && v in s;
      var q := LongStuckWalk(g, s, v, n - 1);
      WalkCons(g, u, q);
      p := [u] + q;
    }
  }

  lemma UnreleasedIsStuck(g: Graph, x: string)
    requires Closed(g) && x in g.nodes && x !in Done(g, |g.nodes|)
    ensures Stuck(g, g.nodes - Done(g, |g.nodes|), x)
  {
    DoneSettles(g);
    assert x !in Done(g, |g.nodes| + 1);
    var y :| Edge(g, x, y) && y !in Done(g, |g.nodes|);
  }

  lemma UnreleasedSeesCycle(g: Graph, u: string)
    requires Closed(g) && u in g.nodes && u !in Done(g, |g.nodes|)
    ensures SeesCycle(g, u)
  {
    hide Done, SeesCycle, Walk, Closed;
    var s := g.nodes - Done(g, |g.nodes|);
    forall x | x in s ensures Stuck(g, s, x) {
      UnreleasedIsStuck(g, x);
    }
    var p := LongStuckWalk(g, s, u, |g.nodes| + 1);
    RepeatOrDistinct(p, g.nodes);
    RepeatSeesCycle(g, p);
  }

  /** The nodes that are never released are exactly those from which a cycle is reachable. */
  lemma UnreleasedIffSeesCycle(g: Graph, u: string)
    requires Closed(g) && u in g.nodes
    ensures u !in Done(g, |g.nodes|) <==> SeesCycle(g, u)
  {
    if u in Done(g, |g.nodes|) {
      ReleasedSeesNoCycle(g, |g.nodes|, u);
    } else {
      UnreleasedSeesCycle(g, u);
    }
  }

  lemma RepeatSeesCycle(g: Graph, p: seq<string>)
    requires Walk(g, p) && !Distinct(p)
    ensures SeesCycle(g, p[0])
  {
    var i, j :| 0 <= i < j < |p| && p[i] == p[j];
    WalkReaches(g, p, i, j);
    if i > 0 {
      WalkReaches(g, p, 0, i);
    }
    assert ReachesOrIs(g, p[0], p[i]);
  }

  lemma AcyclicIffAllReleased(g: Graph)
    requires Closed(g)
    ensures Acyclic(g) <==> Done(g, |g.nodes|) == g.nodes
  {
    AcyclicIffNoneSees(g);
    DoneGrows(g, |g.nodes|, |g.nodes|);
    forall u | u in g.nodes
      ensures u !in Done(g, |g.nodes|) <==> SeesCycle(g, u)
    {
      UnreleasedIffSeesCycle(g, u);
    }
  }

  /** A round that releases nothing is the last: what is out then is all that ever gets out. */
  lemma EmptyLayerIsLast(g: Graph, k: nat)
    requires Layer(g, k) == {}
    ensures Done(g, k) == Done(g, |g.nodes|)
  {
    DoneGrows(g, k, k + 1);
    assert Done(g, k) == Done(g, k + 1) by {
      assert forall x :: x in Done(g, k + 1) ==> x in Done(g, k) || x in Layer(g, k);
    }
    DoneSettles(g);
    if k <= |g.nodes| {
      StableStays(g, k, |g.nodes|);
    } else {
      StableStays(g, |g.nodes|, k);
    }
  }

  /** Layers never overlap, so a node lies in at most one. */
  lemma LayersDisjoint(g: Graph, u: string, i: nat, j: nat)
    requires u in Layer(g, i) && u in Layer(g, j)
    ensures i == j
  {
    if i < j {
      DoneGrows(g, i + 1, j);
    } else if j < i {
      DoneGrows(g, j + 1, i);
    }
  }
}
