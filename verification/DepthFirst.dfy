/**
 The depth-first search behind cycle detection as a function of the graph and of the order in which
 its nodes are tried as roots, and which simple cycles that search reports.
 */
module DepthFirst {
  import opened Digraph

  /** entry[x] is the walk from the root of the search to x at the moment x was entered. */
  datatype Search = Search(entry: map<string, seq<string>>, path: seq<string>, cycles: seq<seq<string>>)

  const START := Search(map[], [], [])

  /** c closes up along edges and passes no node twice. */
  ghost predicate SimpleCycle(g: Graph, c: seq<string>) {
    Walk(g, c) && Distinct(c) && Edge(g, c[|c| - 1], c[0])
  }

  lemma CycleEndsReach(g: Graph, d: seq<string>)
    requires SimpleCycle(g, d)
    ensures Reaches(g, d[0], d[|d| - 1]) && Reaches(g, d[|d| - 1], d[0])
  {
    EdgeReaches(g, d[|d| - 1], d[0]);
    if |d| > 1 {
      WalkReaches(g, d, 0, |d| - 1);
    }
  }

  lemma SimpleCycleReaches(g: Graph, c: seq<string>)
    requires SimpleCycle(g, c)
    ensures Reaches(g, c[0], c[0])
  {
    CycleEndsReach(g, c);
    ReachesTransitive(g, c[0], c[|c| - 1], c[0]);
  }

  /** The part of p from the first x on. */
  function CutAt(p: seq<string>, x: string): seq<string> {
    if p == [] || p[0] == x then p else CutAt(p[1..], x)
  }

  lemma {:induction false} CutAtFirst(p: seq<string>, i: nat)
    requires i < |p| && p[i] !in p[..i]
    ensures CutAt(p, p[i]) == p[i..]
  {
    if i > 0 {
      assert p[..i][0] == p[0] && p[1..][..i - 1] == p[..i][1..];
      CutAtFirst(p[1..], i - 1);
    }
  }

  lemma CutAtIndex(p: seq<string>, i: nat)
    requires Distinct(p) && i < |p|
    ensures CutAt(p, p[i]) == p[i..]
  {
    CutAtFirst(p, i);
  }

  // ------------------------------------------------------------ the search

  /** Nothing found is lost, no entry changes, and the walk is as it was. */
  ghost predicate Grown(s: Search, r: Search) {
    && r.path == s.path && s.entry.Keys <= r.entry.Keys
    && (forall x | x in s.entry :: r.entry[x] == s.entry[x])
    && (forall c | c in s.cycles :: c in r.cycles)
  }

  function Entered(s: Search, node: string): Search {
    Search(s.entry[node := s.path + [node]], s.path + [node], s.cycles)
  }

  lemma EnteredGrows(s: Search, node: string, t: Search)
    requires node !in s.entry && Grown(Entered(s, node), t)
    ensures Grown(s, t.(path := s.path)) && node in t.entry
  {
  }

  /** Explore everything below a node not entered before. */
  ghost function Visit(g: Graph, node: string, s: Search): (r: Search)
    requires Closed(g) && node in g.nodes && node !in s.entry
    ensures Grown(s, r) && node in r.entry
    decreases |g.nodes - s.entry.Keys|, 0
  {
    var e := Entered(s, node);
    OneMoreLeavesFewer(g.nodes, s.entry.Keys, e.entry.Keys, node);
    assert forall v | v in Succ(g, node) :: Edge(g, node, v);
    var t := FollowAll(g, Succ(g, node), e);
    EnteredGrows(s, node, t);
    t.(path := s.path)
  }

  /** Follow edges one after the other. */
  ghost function FollowAll(g: Graph, targets: seq<string>, s: Search): (r: Search)
    requires Closed(g) && forall v | v in targets :: v in g.nodes
    ensures Grown(s, r)
    decreases |g.nodes - s.entry.Keys|, 1 + |targets|
  {
    if targets == [] then s
    else
      var last := |targets| - 1;
      var t := FollowAll(g, targets[..last], s);
      SubsetIsNoLarger(g.nodes - t.entry.Keys, g.nodes - s.entry.Keys);
      Follow(g, targets[last], t)
  }

  /** One edge: descend, report a cycle, or skip what is finished. */
  ghost function Follow(g: Graph, target: string, s: Search): (r: Search)
    requires Closed(g) && target in g.nodes
    ensures Grown(s, r) && target in r.entry
    decreases |g.nodes - s.entry.Keys|, 1
  {
    if target !in s.entry then Visit(g, target, s)
    else if target in s.path then s.(cycles := s.cycles + [CutAt(s.path, target)])
    else s
  }

  lemma FollowAllSnoc(g: Graph, targets: seq<string>, k: nat, s: Search)
    requires Closed(g) && k < |targets| && forall v | v in targets :: v in g.nodes
    ensures FollowAll(g, targets[..k + 1], s) == Follow(g, targets[k], FollowAll(g, targets[..k], s))
    ensures FollowAll(g, targets[..0], s) == s && targets[..|targets|] == targets
  {
    assert targets[..k + 1][..k] == targets[..k];
  }

  /** The search with its roots tried in the given order. */
  ghost function SearchAll(g: Graph, order: seq<string>): Search
    requires Closed(g) && forall v | v in order :: v in g.nodes
  {
    if order == [] then START
    else
      var last := |order| - 1;
      TryRoot(g, order[last], SearchAll(g, order[..last]))
  }

  lemma RootsNone(g: Graph, order: seq<string>)
    requires Closed(g)
    ensures SearchAll(g, order[..0]) == START
  {
  }

  lemma SearchAllSnoc(g: Graph, order: seq<string>, k: nat)
    requires Closed(g) && k < |order| && forall v | v in order :: v in g.nodes
    ensures SearchAll(g, order[..k + 1]) == TryRoot(g, order[k], SearchAll(g, order[..k]))
  {
    assert order[..k + 1][..k] == order[..k];
  }

  ghost function TryRoot(g: Graph, node: string, s: Search): (r: Search)
    requires Closed(g) && node in g.nodes
    ensures Grown(s, r) && node in r.entry
  {
    if node in s.entry then s else Visit(g, node, s)
  }

  /** order lists every node once. */
  ghost predicate RootOrder(g: Graph, order: seq<string>) {
    Distinct(order) && Elements(order) == g.nodes
  }

  ghost function Reported(g: Graph, order: seq<string>): seq<seq<string>>
    requires Closed(g) && RootOrder(g, order)
  {
    assert forall v | v in order :: v in Elements(order);
    SearchAll(g, order).cycles
  }

  // ------------------------------------------------------------ what every search keeps

  /** p is a walk that passes no node twice and ends in x. */
  ghost predicate Trail(g: Graph, p: seq<string>, x: string) {
    Walk(g, p) && Distinct(p) && p[|p| - 1] == x
  }

  /** Node i of the walk to x was entered by the first i steps of it. */
  ghost predicate EnteredAlong(s: Search, x: string, i: nat)
    requires x in s.entry && i < |s.entry[x]|
  {
    s.entry[x][i] in s.entry && s.entry[s.entry[x][i]] == s.entry[x][..i + 1]
  }

  /** c was cut out of the walk to x at the target of one of x's edges. */
  ghost predicate CutFrom(g: Graph, s: Search, c: seq<string>, x: string, y: string) {
    x in s.entry && Edge(g, x, y) && y in s.entry[x] && c == CutAt(s.entry[x], y)
  }

  ghost predicate Sourced(g: Graph, s: Search, c: seq<string>) {
    exists x, y :: CutFrom(g, s, c, x, y)
  }

  ghost predicate Coherent(g: Graph, s: Search) {
    && (forall x | x in s.entry :: Trail(g, s.entry[x], x))
    && (forall x, i: nat | x in s.entry && i < |s.entry[x]| :: EnteredAlong(s, x, i))
    && (s.path != [] ==> var x := s.path[|s.path| - 1]; x in s.entry && s.entry[x] == s.path)
    && (forall c | c in s.cycles :: Sourced(g, s, c))
  }

  ghost predicate Fresh(s: Search, r: Search, x: string) {
    x in r.entry && x !in s.entry
  }

  /** What was entered between s and r was entered below the given walk. */
  ghost predicate Below(s: Search, r: Search, prefix: seq<string>) {
    forall x | Fresh(s, r, x) :: prefix <= r.entry[x]
  }

  /** The edge from x to y has been followed: a cycle was reported if it leads back into the walk to x. */
  ghost predicate Followed(r: Search, x: string, y: string) {
    x in r.entry && y in r.entry && (y in r.entry[x] ==> CutAt(r.entry[x], y) in r.cycles)
  }

  ghost predicate Settled(g: Graph, s: Search, r: Search) {
    forall x, y | Fresh(s, r, x) && Edge(g, x, y) :: Followed(r, x, y)
  }

  lemma FollowedGrows(s: Search, r: Search, x: string, y: string)
    requires Grown(s, r) && Followed(s, x, y)
    ensures Followed(r, x, y)
  {
  }

  lemma CutFromGrows(g: Graph, s: Search, r: Search, c: seq<string>)
    requires Sourced(g, s, c) && s.entry.Keys <= r.entry.Keys && forall x | x in s.entry :: r.entry[x] == s.entry[x]
    ensures Sourced(g, r, c)
  {
    var x, y :| CutFrom(g, s, c, x, y);
    assert CutFrom(g, r, c, x, y);
  }

  lemma EnterTrail(g: Graph, s: Search, node: string)
    requires Coherent(g, s) && node !in s.entry && (s.path != [] ==> Edge(g, s.path[|s.path| - 1], node))
    ensures Trail(g, s.path + [node], node)
  {
    var p := s.path;
    if p != [] {
      var last := p[|p| - 1];
      forall i | 0 <= i < |p| ensures p[i] != node {
        assert EnteredAlong(s, last, i);
      }
      WalkSnoc(g, p, node);
    }
  }

  lemma EnterCoherent(g: Graph, s: Search, node: string)
    requires Coherent(g, s) && node !in s.entry && (s.path != [] ==> Edge(g, s.path[|s.path| - 1], node))
    ensures Coherent(g, Entered(s, node))
  {
    var e := Entered(s, node);
    EnterTrail(g, s, node);
    forall x, i: nat | x in e.entry && i < |e.entry[x]| ensures EnteredAlong(e, x, i) {
      if x != node {
        assert EnteredAlong(s, x, i);
      } else if i < |s.path| {
        assert EnteredAlong(s, s.path[|s.path| - 1], i);
        assert e.entry[x][..i + 1] == s.path[..i + 1];
      } else {
        assert e.entry[x][..i + 1] == e.entry[x];
      }
    }
    forall c | c in e.cycles ensures Sourced(g, e, c) {
      CutFromGrows(g, s, e, c);
    }
  }

  /** Going back up to the walk of s keeps the search coherent. */
  lemma LeaveCoherent(g: Graph, s: Search, r: Search)
    requires Coherent(g, s) && Coherent(g, r) && s.entry.Keys <= r.entry.Keys
    requires forall x | x in s.entry :: r.entry[x] == s.entry[x]
    ensures Coherent(g, r.(path := s.path))
  {
    var t := r.(path := s.path);
    forall x, i: nat | x in t.entry && i < |t.entry[x]| ensures EnteredAlong(t, x, i) {
      assert EnteredAlong(r, x, i);
    }
    forall c | c in t.cycles ensures Sourced(g, t, c) {
      CutFromGrows(g, r, t, c);
    }
  }

  lemma ReportCoherent(g: Graph, s: Search, x: string, y: string)
    requires Coherent(g, s) && s.path != [] && s.path[|s.path| - 1] == x && Edge(g, x, y) && y in s.path
    ensures Coherent(g, s.(cycles := s.cycles + [CutAt(s.path, y)]))
  {
    var r := s.(cycles := s.cycles + [CutAt(s.path, y)]);
    forall z, i: nat | z in r.entry && i < |r.entry[z]| ensures EnteredAlong(r, z, i) {
      assert EnteredAlong(s, z, i);
    }
    forall c | c in r.cycles ensures Sourced(g, r, c) {
      if c in s.cycles {
        CutFromGrows(g, s, r, c);
      } else {
        assert CutFrom(g, r, c, x, y);
      }
    }
  }

  lemma StageConcat(g: Graph, s: Search, t: Search, r: Search, prefix: seq<string>)
    requires Grown(s, t) && Grown(t, r) && Below(s, t, prefix) && Below(t, r, prefix)
    requires Settled(g, s, t) && Settled(g, t, r)
    ensures Below(s, r, prefix) && Settled(g, s, r)
  {
    forall x | Fresh(s, r, x) ensures prefix <= r.entry[x] {
      assert Fresh(s, t, x) || Fresh(t, r, x);
    }
    forall x, y | Fresh(s, r, x) && Edge(g, x, y) ensures Followed(r, x, y) {
      if Fresh(s, t, x) {
        FollowedGrows(t, r, x, y);
      } else {
        assert Fresh(t, r, x);
      }
    }
  }

  /** Visiting a node enters nodes below it only, and follows every edge of each. */
  lemma {:induction false} VisitFacts(g: Graph, node: string, s: Search)
    requires Closed(g) && node in g.nodes && node !in s.entry && Coherent(g, s)
    requires s.path != [] ==> Edge(g, s.path[|s.path| - 1], node)
    ensures var r := Visit(g, node, s);
            && Coherent(g, r) && Below(s, r, s.path + [node]) && Settled(g, s, r)
            && r.entry[node] == s.path + [node]
    decreases |g.nodes - s.entry.Keys|, 0
  {
    hide Coherent, Settled, Below, Closed, Grown, Followed;
    var e := Entered(s, node);
    EnterCoherent(g, s, node);
    OneMoreLeavesFewer(g.nodes, s.entry.Keys, e.entry.Keys, node);
    var targets := Succ(g, node);
    SuccessorsAreNodes(g, node);
    FollowAllFacts(g, node, targets, e);
    var t := FollowAll(g, targets, e);
    VisitLeaves(g, s, node, t);
    VisitStage(g, s, node, t);
  }

  lemma VisitLeaves(g: Graph, s: Search, node: string, t: Search)
    requires node !in s.entry && Grown(Entered(s, node), t) && Coherent(g, s) && Coherent(g, t)
    ensures Coherent(g, t.(path := s.path)) && node in t.entry && t.entry[node] == s.path + [node]
  {
    hide Coherent;
    assert forall x | x in s.entry :: t.entry[x] == Entered(s, node).entry[x];
    LeaveCoherent(g, s, t);
  }

  lemma VisitStage(g: Graph, s: Search, node: string, t: Search)
    requires node !in s.entry && Grown(Entered(s, node), t)
    requires Below(Entered(s, node), t, s.path + [node]) && Settled(g, Entered(s, node), t)
    requires forall v | v in Succ(g, node) :: Followed(t, node, v)
    ensures var r := t.(path := s.path); Below(s, r, s.path + [node]) && Settled(g, s, r)
  {
    var e, r := Entered(s, node), t.(path := s.path);
    forall x | Fresh(s, r, x) ensures s.path + [node] <= r.entry[x] {
      assert x == node || Fresh(e, t, x);
    }
    forall x, y | Fresh(s, r, x) && Edge(g, x, y) ensures Followed(r, x, y) {
      assert x == node || Fresh(e, t, x);
      assert Followed(t, x, y);
    }
  }

  lemma SuccessorsAreNodes(g: Graph, node: string)
    requires Closed(g)
    ensures forall v | v in Succ(g, node) :: v in g.nodes && Edge(g, node, v)
  {
    assert forall v | v in Succ(g, node) :: Edge(g, node, v);
  }

  lemma {:induction false} FollowAllFacts(g: Graph, node: string, targets: seq<string>, s: Search)
    requires Closed(g) && Coherent(g, s) && s.path != [] && s.path[|s.path| - 1] == node
    requires forall v | v in targets :: v in g.nodes && Edge(g, node, v)
    ensures var r := FollowAll(g, targets, s);
            && Coherent(g, r) && Below(s, r, s.path) && Settled(g, s, r)
            && forall v | v in targets :: Followed(r, node, v)
    decreases |g.nodes - s.entry.Keys|, 1 + |targets|
  {
    if targets != [] {
      var init, last := targets[..|targets| - 1], targets[|targets| - 1];
      assert targets == init + [last];
      FollowAllFacts(g, node, init, s);
      var t := FollowAll(g, init, s);
      var r := FollowAll(g, targets, s);
      SubsetIsNoLarger(g.nodes - t.entry.Keys, g.nodes - s.entry.Keys);
      FollowFacts(g, node, last, t);
      assert r == Follow(g, last, t);
      StageConcat(g, s, t, r, s.path);
      forall v | v in targets ensures Followed(r, node, v) {
        if v in init {
          FollowedGrows(t, r, node, v);
        }
      }
    }
  }

  lemma {:induction false} FollowFacts(g: Graph, node: string, target: string, s: Search)
    requires Closed(g) && Coherent(g, s) && s.path != [] && s.path[|s.path| - 1] == node
    requires target in g.nodes && Edge(g, node, target)
    ensures var r := Follow(g, target, s);
            Coherent(g, r) && Below(s, r, s.path) && Settled(g, s, r) && Followed(r, node, target)
    decreases |g.nodes - s.entry.Keys|, 1
  {
    if target !in s.entry {
      VisitFacts(g, target, s);
      var r := Visit(g, target, s);
      assert target !in s.path by {
        PathIsEntered(g, s, target);
      }
    } else if target in s.path {
      ReportCoherent(g, s, node, target);
    }
  }

  lemma PathIsEntered(g: Graph, s: Search, x: string)
    requires Coherent(g, s) && x !in s.entry
    ensures x !in s.path
  {
    forall i | 0 <= i < |s.path| ensures s.path[i] != x {
      assert EnteredAlong(s, s.path[|s.path| - 1], i);
    }
  }
}
