/**
 Which simple cycles cycle detection reports: all of them, whatever node it starts from, exactly on
 graphs in which any two mutually reachable nodes are joined by a single simple path.
 */
module CycleCoverage {
  import opened Digraph
  import opened DepthFirst

  ghost predicate Rotation(c: seq<string>, d: seq<string>) {
    exists k :: RotatedBy(c, d, k)
  }

  ghost predicate RotatedBy(c: seq<string>, d: seq<string>, k: int) {
    0 <= k < |c| && d == c[k..] + c[..k]
  }

  /** c is reported, up to the node it is written from. */
  ghost predicate Covers(cycles: seq<seq<string>>, c: seq<string>) {
    exists d :: d in cycles && Rotation(d, c)
  }

  ghost predicate ReportsAll(g: Graph, order: seq<string>)
    requires Closed(g) && RootOrder(g, order)
  {
    forall c | SimpleCycle(g, c) :: Covers(Reported(g, order), c)
  }

  ghost predicate SimplePath(g: Graph, p: seq<string>, u: string, v: string) {
    Trail(g, p, v) && p[0] == u
  }

  /** Wherever two nodes reach each other, there is at most one simple path from the one to the other. */
  ghost predicate SinglePaths(g: Graph) {
    forall u, v, p, q | Reaches(g, u, v) && Reaches(g, v, u) && SimplePath(g, p, u, v) && SimplePath(g, q, u, v) ::
      p == q
  }

  // ------------------------------------------------------------ single paths suffice

  ghost predicate Untouched(s: Search, c: seq<string>) {
    forall i | 0 <= i < |c| :: c[i] !in s.entry
  }

  /** The cycle itself has been reported, or, when that is not asked for, any cycle has. */
  ghost predicate Noticed(s: Search, c: seq<string>, itself: bool) {
    if itself then Covers(s.cycles, c) else s.cycles != []
  }

  /** Noticing the cycle itself takes single paths. */
  ghost predicate Premises(g: Graph, itself: bool) {
    itself ==> SinglePaths(g)
  }

  /** Either the search has not met the cycle or it has noticed it. */
  ghost predicate MetAndNoticed(s: Search, c: seq<string>, itself: bool) {
    Untouched(s, c) || Noticed(s, c, itself)
  }

  lemma NoticedGrows(s: Search, r: Search, c: seq<string>, itself: bool)
    requires Noticed(s, c, itself) && Grown(s, r)
    ensures Noticed(r, c, itself)
  {
    if itself {
      var d :| d in s.cycles && Rotation(d, c);
      assert d in r.cycles;
    } else {
      assert s.cycles[0] in r.cycles;
    }
  }

  lemma RotatedCloses(g: Graph, c: seq<string>, k: nat)
    requires SimpleCycle(g, c) && k < |c|
    ensures var d := c[k..] + c[..k]; Walk(g, d) && Edge(g, d[|d| - 1], d[0])
  {
    hide Distinct;
    var d, n := c[k..] + c[..k], |c| - k;
    assert forall i | 0 <= i < n :: d[i] == c[k + i];
    assert forall i | n <= i < |d| :: d[i] == c[i - n];
    hide Edge;
    forall i, j | 0 <= i < |d| && 0 <= j < |d| && j == i + 1 ensures Edge(g, d[i], d[j]) {
      if j == n {
        assert d[i] == c[|c| - 1] && d[j] == c[0];
      }
    }
    assert k > 0 ==> d[|d| - 1] == c[k - 1] && d[0] == c[k];
  }

  lemma RotatedDistinct(c: seq<string>, k: nat)
    requires Distinct(c) && k < |c|
    ensures Distinct(c[k..] + c[..k])
  {
    var d, n := c[k..] + c[..k], |c| - k;
    forall i, j | 0 <= i < j < |d| ensures d[i] != d[j] {
      assert d[i] == c[if i < n then k + i else i - n];
      assert d[j] == c[if j < n then k + j else j - n];
    }
  }

  /** A simple cycle written from its k-th node. */
  lemma RotatedIsSimple(g: Graph, c: seq<string>, k: nat)
    requires SimpleCycle(g, c) && k < |c|
    ensures var d := c[k..] + c[..k]; SimpleCycle(g, d) && |d| == |c| && d[0] == c[k] && Rotation(d, c)
  {
    RotatedCloses(g, c, k);
    RotatedDistinct(c, k);
    RotateBack(c, k);
  }

  lemma RotateBack(c: seq<string>, k: nat)
    requires k < |c|
    ensures Rotation(c[k..] + c[..k], c)
  {
    var d := c[k..] + c[..k];
    if k == 0 {
      assert d == c && c == d[0..] + d[..0];
      assert RotatedBy(d, c, 0);
    } else {
      var back := |c| - k;
      assert d[back..] == c[..k] && d[..back] == c[k..];
      assert c == d[back..] + d[..back];
      assert RotatedBy(d, c, back);
    }
  }

  /** Everything on an untouched cycle is entered below the first of its nodes that is visited. */
  lemma {:induction false} CycleEntered(g: Graph, s: Search, r: Search, d: seq<string>, i: nat)
    requires Settled(g, s, r) && SimpleCycle(g, d) && Untouched(s, d) && d[0] in r.entry && i < |d|
    ensures Fresh(s, r, d[i])
  {
    if i > 0 {
      CycleEntered(g, s, r, d, i - 1);
      assert Edge(g, d[i - 1], d[i]);
      assert Followed(r, d[i - 1], d[i]);
    }
  }

  lemma TrailSuffix(g: Graph, p: seq<string>, x: string, i: nat)
    requires Trail(g, p, x) && i < |p|
    ensures SimplePath(g, p[i..], p[i], x)
  {
    WalkSlice(g, p, i, |p|);
    assert p[i..|p|] == p[i..];
  }

  lemma EntryIsTrail(g: Graph, s: Search, x: string)
    requires Coherent(g, s) && x in s.entry
    ensures Trail(g, s.entry[x], x)
  {
  }

  /** The closing edge of a cycle first met at its start leads back into the walk to the cycle's last node. */
  lemma FirstVisitCloses(g: Graph, node: string, s: Search, d: seq<string>)
    requires Closed(g) && node in g.nodes && node !in s.entry && Coherent(g, s)
    requires s.path != [] ==> Edge(g, s.path[|s.path| - 1], node)
    requires SimpleCycle(g, d) && Untouched(s, d) && d[0] == node
    ensures var r, x := Visit(g, node, s), d[|d| - 1];
            && x in r.entry && |s.path| < |r.entry[x]| && SimplePath(g, r.entry[x][|s.path|..], node, x)
            && r.entry[x][|s.path|..] in r.cycles
  {
    hide Visit, Coherent, Closed;
    var r := Visit(g, node, s);
    VisitFacts(g, node, s);
    var x, k := d[|d| - 1], |s.path|;
    CycleEntered(g, s, r, d, |d| - 1);
    EntryIsTrail(g, r, x);
    var walk := r.entry[x];
    assert s.path + [node] <= walk;
    assert walk[k] == (s.path + [node])[k] == node;
    TrailSuffix(g, walk, x, k);
    assert Followed(r, x, node);
    CutAtIndex(walk, k);
  }

  /** With single paths the part of that walk from the cycle's start on is the cycle. */
  lemma FirstVisitReports(g: Graph, node: string, s: Search, d: seq<string>)
    requires Closed(g) && SinglePaths(g) && node in g.nodes && node !in s.entry && Coherent(g, s)
    requires s.path != [] ==> Edge(g, s.path[|s.path| - 1], node)
    requires SimpleCycle(g, d) && Untouched(s, d) && d[0] == node
    ensures d in Visit(g, node, s).cycles
  {
    FirstVisitCloses(g, node, s, d);
    hide Visit, Coherent, Closed;
    CycleEndsReach(g, d);
    assert SimplePath(g, d, node, d[|d| - 1]);
  }

  lemma {:induction false} VisitNotices(g: Graph, node: string, s: Search, c: seq<string>, itself: bool)
    requires Closed(g) && Premises(g, itself) && node in g.nodes && node !in s.entry && Coherent(g, s)
    requires s.path != [] ==> Edge(g, s.path[|s.path| - 1], node)
    requires SimpleCycle(g, c) && MetAndNoticed(s, c, itself)
    ensures MetAndNoticed(Visit(g, node, s), c, itself)
    decreases |g.nodes - s.entry.Keys|, 1
  {
    hide Coherent, Closed, Premises, SimpleCycle, Noticed, Visit, Walk;
    if Noticed(s, c, itself) {
      NoticedGrows(s, Visit(g, node, s), c, itself);
    } else if node in c {
      FirstVisitNotices(g, node, s, c, itself);
    } else {
      VisitElsewhere(g, node, s, c, itself);
    }
  }

  lemma EnterElsewhere(s: Search, node: string, c: seq<string>, itself: bool)
    requires node !in c && MetAndNoticed(s, c, itself)
    ensures MetAndNoticed(Entered(s, node), c, itself)
  {
  }

  lemma LeaveElsewhere(s: Search, path: seq<string>, c: seq<string>, itself: bool)
    requires MetAndNoticed(s, c, itself)
    ensures MetAndNoticed(s.(path := path), c, itself)
  {
  }

  lemma {:induction false} VisitElsewhere(g: Graph, node: string, s: Search, c: seq<string>, itself: bool)
    requires Closed(g) && Premises(g, itself) && node in g.nodes && node !in s.entry && Coherent(g, s)
    requires s.path != [] ==> Edge(g, s.path[|s.path| - 1], node)
    requires SimpleCycle(g, c) && MetAndNoticed(s, c, itself) && node !in c
    ensures MetAndNoticed(Visit(g, node, s), c, itself)
    decreases |g.nodes - s.entry.Keys|, 0
  {
    hide Coherent, Closed, Premises, SimpleCycle, MetAndNoticed, Grown, Follow, FollowAll, Walk;
    var e := Entered(s, node);
    EnterCoherent(g, s, node);
    EnterElsewhere(s, node, c, itself);
    OneMoreLeavesFewer(g.nodes, s.entry.Keys, e.entry.Keys, node);
    SuccessorsAreNodes(g, node);
    FollowAllNotices(g, node, Succ(g, node), e, c, itself);
    LeaveElsewhere(FollowAll(g, Succ(g, node), e), s.path, c, itself);
  }

  lemma FirstVisitNotices(g: Graph, node: string, s: Search, c: seq<string>, itself: bool)
    requires Closed(g) && Premises(g, itself) && node in g.nodes && node !in s.entry && Coherent(g, s)
    requires s.path != [] ==> Edge(g, s.path[|s.path| - 1], node)
    requires SimpleCycle(g, c) && Untouched(s, c) && node in c
    ensures Noticed(Visit(g, node, s), c, itself)
  {
    hide Coherent, SinglePaths, Closed, SimpleCycle, Visit;
    var k :| 0 <= k < |c| && c[k] == node;
    RotatedIsSimple(g, c, k);
    if itself {
      FirstVisitReports(g, node, s, c[k..] + c[..k]);
    } else {
      FirstVisitCloses(g, node, s, c[k..] + c[..k]);
    }
  }

  lemma FollowAllStays(g: Graph, node: string, targets: seq<string>, s: Search)
    requires Closed(g) && Coherent(g, s) && s.path != [] && s.path[|s.path| - 1] == node
    requires forall v | v in targets :: v in g.nodes && Edge(g, node, v)
    ensures var t := FollowAll(g, targets, s);
            Coherent(g, t) && t.path == s.path && |g.nodes - t.entry.Keys| <= |g.nodes - s.entry.Keys|
  {
    hide Coherent, Closed, FollowAll;
    FollowAllFacts(g, node, targets, s);
    SubsetIsNoLarger(g.nodes - FollowAll(g, targets, s).entry.Keys, g.nodes - s.entry.Keys);
  }

  lemma {:induction false} FollowAllNotices(g: Graph, node: string, targets: seq<string>, s: Search, c: seq<string>,
                                            itself: bool)
    requires Closed(g) && Premises(g, itself) && Coherent(g, s) && s.path != [] && s.path[|s.path| - 1] == node
    requires forall v | v in targets :: v in g.nodes && Edge(g, node, v)
    requires SimpleCycle(g, c) && MetAndNoticed(s, c, itself)
    ensures MetAndNoticed(FollowAll(g, targets, s), c, itself)
    decreases |g.nodes - s.entry.Keys|, 3 + |targets|
  {
    hide Coherent, Closed, Premises, SimpleCycle, MetAndNoticed, Follow, Grown;
    if targets != [] {
      var init, last := targets[..|targets| - 1], targets[|targets| - 1];
      assert targets == init + [last];
      FollowAllNotices(g, node, init, s, c, itself);
      FollowAllStays(g, node, init, s);
      var t := FollowAll(g, init, s);
      FollowNotices(g, node, last, t, c, itself);
    }
  }

  lemma {:induction false} FollowNotices(g: Graph, node: string, target: string, s: Search, c: seq<string>,
                                         itself: bool)
    requires Closed(g) && Premises(g, itself) && Coherent(g, s) && s.path != [] && s.path[|s.path| - 1] == node
    requires target in g.nodes && Edge(g, node, target) && SimpleCycle(g, c) && MetAndNoticed(s, c, itself)
    ensures MetAndNoticed(Follow(g, target, s), c, itself)
    decreases |g.nodes - s.entry.Keys|, 2
  {
    hide Coherent, Closed, Premises, SimpleCycle, Noticed, Visit;
    if target !in s.entry {
      VisitNotices(g, target, s, c, itself);
    } else if Noticed(s, c, itself) {
      NoticedGrows(s, Follow(g, target, s), c, itself);
    }
  }

  lemma {:induction false} SearchFacts(g: Graph, order: seq<string>)
    requires Closed(g) && forall v | v in order :: v in g.nodes
    ensures var s := SearchAll(g, order);
            Coherent(g, s) && s.path == [] && forall v | v in order :: v in s.entry
  {
    if order != [] {
      var init, last := order[..|order| - 1], order[|order| - 1];
      assert order == init + [last];
      SearchFacts(g, init);
      var s := SearchAll(g, init);
      if last !in s.entry {
        VisitFacts(g, last, s);
      }
    }
  }

  lemma {:induction false} SearchNotices(g: Graph, order: seq<string>, c: seq<string>, itself: bool)
    requires Closed(g) && Premises(g, itself) && (forall v | v in order :: v in g.nodes) && SimpleCycle(g, c)
    ensures MetAndNoticed(SearchAll(g, order), c, itself)
  {
    if order != [] {
      var init, last := order[..|order| - 1], order[|order| - 1];
      assert order == init + [last];
      SearchNotices(g, init, c, itself);
      SearchFacts(g, init);
      var s := SearchAll(g, init);
      if last !in s.entry {
        VisitNotices(g, last, s, c, itself);
      }
    }
  }

  /** At the end of the search no node is left, so every simple cycle was noticed. */
  lemma AllNoticed(g: Graph, order: seq<string>, c: seq<string>, itself: bool)
    requires Closed(g) && Premises(g, itself) && RootOrder(g, order) && SimpleCycle(g, c)
    ensures if itself then Covers(Reported(g, order), c) else Reported(g, order) != []
  {
    assert forall v | v in order :: v in Elements(order);
    SearchNotices(g, order, c, itself);
    SearchFacts(g, order);
    SimpleCycleReaches(g, c);
    ReachEndsAreNodes(g, c[0], c[0]);
    assert c[0] in Elements(order);
  }

  lemma SinglePathsSuffice(g: Graph, order: seq<string>)
    requires Closed(g) && SinglePaths(g) && RootOrder(g, order)
    ensures ReportsAll(g, order)
  {
    forall c | SimpleCycle(g, c) ensures Covers(Reported(g, order), c) {
      AllNoticed(g, order, c, true);
    }
  }

  // ------------------------------------------------------------ what is reported at all

  lemma ReportedAreSimple(g: Graph, order: seq<string>)
    requires Closed(g) && RootOrder(g, order)
    ensures forall c | c in Reported(g, order) :: SimpleCycle(g, c)
  {
    assert forall v | v in order :: v in Elements(order);
    SearchFacts(g, order);
    var s := SearchAll(g, order);
    forall c | c in s.cycles ensures SimpleCycle(g, c) {
      assert Sourced(g, s, c);
      var x, y :| CutFrom(g, s, c, x, y);
      var i :| 0 <= i < |s.entry[x]| && s.entry[x][i] == y;
      EntryIsTrail(g, s, x);
      CutAtIndex(s.entry[x], i);
      TrailSuffix(g, s.entry[x], x, i);
    }
  }

  /** The report is empty exactly for acyclic graphs. */
  lemma NothingReportedIff(g: Graph, order: seq<string>)
    requires Closed(g) && RootOrder(g, order)
    ensures Reported(g, order) == [] <==> Acyclic(g)
  {
    if !Acyclic(g) {
      var u :| Reaches(g, u, u);
      var w := LastStep(g, u, u);
      if w == u {
        assert SimpleCycle(g, [u]);
        AllNoticed(g, order, [u], false);
      } else {
        var c := EdgeOnCycle(g, w, u);
        AllNoticed(g, order, c, false);
      }
    } else if Reported(g, order) != [] {
      ReportedAreSimple(g, order);
      SimpleCycleReaches(g, Reported(g, order)[0]);
    }
  }

  // ------------------------------------------------------------ single paths are necessary

  lemma {:induction false} Shortcut(g: Graph, p: seq<string>) returns (q: seq<string>)
    requires Walk(g, p)
    ensures Walk(g, q) && Distinct(q) && q[0] == p[0] && q[|q| - 1] == p[|p| - 1]
    decreases |p|
  {
    if Distinct(p) {
      q := p;
    } else {
      var i, j :| 0 <= i < j < |p| && p[i] == p[j];
      WalkSlice(g, p, 0, i + 1);
      WalkSlice(g, p, j, |p|);
      assert p[0..i + 1][i] == p[j..|p|][0];
      WalkConcat(g, p[0..i + 1], p[j..|p|]);
      q := Shortcut(g, p[0..i + 1] + p[j..|p|][1..]);
    }
  }

  /** An edge whose ends reach each other lies on a simple cycle. */
  lemma EdgeOnCycle(g: Graph, x: string, y: string) returns (c: seq<string>)
    requires Edge(g, x, y) && Reaches(g, y, x)
    ensures SimpleCycle(g, c) && c[0] == y && c[|c| - 1] == x
  {
    var p :| Path(g, p, y, x);
    c := Shortcut(g, p);
  }

  /** The edge that closes a rotation of a reported cycle is a tree edge or leads back. */
  lemma ReportedEdge(g: Graph, s: Search, d: seq<string>, c: seq<string>)
    requires Coherent(g, s) && Sourced(g, s, d) && Rotation(d, c) && |c| > 0
    ensures var x, y := c[|c| - 1], c[0];
            x in s.entry && (y in s.entry[x] || (y in s.entry && s.entry[y] == s.entry[x] + [y]))
  {
    hide Coherent, Distinct, Walk, CutAt;
    var k :| RotatedBy(d, c, k);
    var x, y :| CutFrom(g, s, d, x, y);
    EntryIsTrail(g, s, x);
    var walk := s.entry[x];
    var i :| 0 <= i < |walk| && walk[i] == y;
    CutAtIndex(walk, i);
    RotatedEnds(d, c, k);
    if k > 0 {
      TreeEdge(g, s, x, i + k);
    }
  }

  lemma RotatedEnds(d: seq<string>, c: seq<string>, k: int)
    requires RotatedBy(d, c, k)
    ensures |c| == |d| && c[0] == d[k] && c[|c| - 1] == d[if k == 0 then |d| - 1 else k - 1]
  {
  }

  lemma TreeEdge(g: Graph, s: Search, x: string, j: nat)
    requires Coherent(g, s) && x in s.entry && 0 < j < |s.entry[x]|
    ensures var a, b := s.entry[x][j - 1], s.entry[x][j]; a in s.entry && b in s.entry && s.entry[b] == s.entry[a] + [b]
  {
    var walk := s.entry[x];
    assert EnteredAlong(s, x, j - 1) && EnteredAlong(s, x, j);
    assert walk[..j + 1] == walk[..j] + [walk[j]];
  }

  lemma TreeOrBack(g: Graph, order: seq<string>, x: string, y: string)
    requires Closed(g) && RootOrder(g, order) && ReportsAll(g, order) && Edge(g, x, y) && ReachesOrIs(g, y, x)
    ensures (forall v | v in order :: v in g.nodes)
    ensures var s := SearchAll(g, order);
            x in s.entry && (y in s.entry[x] || (y in s.entry && s.entry[y] == s.entry[x] + [y]))
  {
    assert forall v | v in order :: v in Elements(order);
    SearchFacts(g, order);
    var s := SearchAll(g, order);
    if x == y {
      assert x in Elements(order);
      var walk := s.entry[x];
      assert Trail(g, walk, x) && walk[|walk| - 1] in walk;
    } else {
      var c := EdgeOnCycle(g, x, y);
      assert Covers(Reported(g, order), c);
      var d :| d in s.cycles && Rotation(d, c);
      ReportedEdge(g, s, d, c);
    }
  }

  /** With u tried first, a simple path from u to a node that reaches u back is the walk of the search. */
  lemma {:induction false} PathIsEntry(g: Graph, order: seq<string>, u: string, p: seq<string>, v: string)
    requires Closed(g) && RootOrder(g, order) && ReportsAll(g, order)
    requires order != [] && order[0] == u && SimplePath(g, p, u, v) && ReachesOrIs(g, v, u)
    ensures (forall w | w in order :: w in g.nodes)
    ensures var s := SearchAll(g, order); v in s.entry && s.entry[v] == p
    decreases |p|
  {
    assert forall w | w in order :: w in Elements(order);
    if |p| == 1 {
      FirstRoot(g, order);
    } else {
      var init, x := p[..|p| - 1], p[|p| - 2];
      WalkSlice(g, p, 0, |p| - 1);
      assert p[0..|p| - 1] == init && Edge(g, x, v);
      StepBack(g, x, v, u);
      PathIsEntry(g, order, u, init, x);
      assert v !in init;
      WalkBack(g, p, v, u);
      TreeOrBack(g, order, x, v);
    }
  }

  lemma StepBack(g: Graph, x: string, v: string, u: string)
    requires Edge(g, x, v) && ReachesOrIs(g, v, u)
    ensures ReachesOrIs(g, x, u)
  {
    StepThenReach(g, x, v, u);
  }

  /** Whoever reaches the start of a walk reaches its last but one node. */
  lemma WalkBack(g: Graph, p: seq<string>, v: string, u: string)
    requires SimplePath(g, p, u, v) && |p| > 1 && ReachesOrIs(g, v, u)
    ensures ReachesOrIs(g, v, p[|p| - 2])
  {
    if |p| > 2 {
      WalkReaches(g, p, 0, |p| - 2);
      if v != u {
        ReachesTransitive(g, v, u, p[|p| - 2]);
      }
    }
  }

  /** The first root is entered with nothing but itself on the walk. */
  lemma {:induction false} FirstRoot(g: Graph, order: seq<string>)
    requires Closed(g) && order != [] && forall v | v in order :: v in g.nodes
    ensures var s := SearchAll(g, order); order[0] in s.entry && s.entry[order[0]] == [order[0]]
  {
    var init, last := order[..|order| - 1], order[|order| - 1];
    assert order == init + [last];
    if init == [] {
      VisitFacts(g, last, START);
    } else {
      FirstRoot(g, init);
    }
  }

  lemma OrderFrom(s: set<string>, u: string) returns (order: seq<string>)
    requires u in s
    ensures Distinct(order) && Elements(order) == s && order != [] && order[0] == u
  {
    var rest := s - {u};
    order := [u];
    while rest != {}
      invariant rest <= s && Distinct(order) && Elements(order) == s - rest && order != [] && order[0] == u
      decreases rest
    {
      var x :| x in rest;
      assert x !in Elements(order);
      ElementsSnoc(order, x);
      order := order + [x];
      rest := rest - {x};
    }
  }

  lemma SinglePathsNecessary(g: Graph)
    requires Closed(g) && forall order | RootOrder(g, order) :: ReportsAll(g, order)
    ensures SinglePaths(g)
  {
    forall u, v, p, q | Reaches(g, u, v) && Reaches(g, v, u) && SimplePath(g, p, u, v) && SimplePath(g, q, u, v)
      ensures p == q
    {
      ReachEndsAreNodes(g, u, v);
      var order := OrderFrom(g.nodes, u);
      assert RootOrder(g, order);
      PathIsEntry(g, order, u, p, v);
      PathIsEntry(g, order, u, q, v);
    }
  }

  /**
   Cycle detection reports every simple cycle, whatever the order of the roots, if and only if any
   two mutually reachable nodes are joined by a single simple path.
   */
  lemma AllCyclesReportedIff(g: Graph)
    requires Closed(g)
    ensures (forall order | RootOrder(g, order) :: ReportsAll(g, order)) <==> SinglePaths(g)
  {
    if SinglePaths(g) {
      forall order | RootOrder(g, order) ensures ReportsAll(g, order) {
        SinglePathsSuffice(g, order);
      }
    } else if forall order | RootOrder(g, order) :: ReportsAll(g, order) {
      SinglePathsNecessary(g);
    }
  }
}
