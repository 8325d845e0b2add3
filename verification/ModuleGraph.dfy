/**
 The module dependency graph: forward and reverse adjacency lists kept in step, with degree
 counters on the nodes. Map iteration is a nondeterministic choice, so every contract holds for
 every iteration order.
 */
module ModuleGraph {
  import opened Digraph
  import opened StringOrder

  /** Degree counters of one module; the map key is the module's ID. */
  datatype Node = Node(inDegree: nat, outDegree: nat)

  /** What dependency extraction found for one module. */
  datatype ModuleDependencies = ModuleDependencies(dependsOn: seq<string>, libraries: seq<string>)

  datatype ScopeResult = Scoped(graph: DependencyGraph) | ModuleNotFound(id: string)

  function WithEdge(adj: map<string, seq<string>>, u: string, v: string): map<string, seq<string>> {
    adj[u := (if u in adj then adj[u] else []) + [v]]
  }

  function FilterIn(s: seq<string>, keep: set<string>): (r: seq<string>)
    ensures forall x :: x in r <==> x in s && x in keep
  {
    if s == [] then []
    else
      var last := |s| - 1;
      assert s == s[..last] + [s[last]];
      FilterIn(s[..last], keep) + if s[last] in keep then [s[last]] else []
  }

  lemma FilterInSnoc(s: seq<string>, k: nat, keep: set<string>)
    requires k < |s|
    ensures FilterIn(s[..k + 1], keep) == FilterIn(s[..k], keep) + if s[k] in keep then [s[k]] else []
  {
    assert s[..k + 1][..k] == s[..k];
  }

  function TrimSlash(path: string): string {
    if path != [] && path[|path| - 1] == '/' then path[..|path| - 1] else path
  }

  /** A path is recorded and looked up the same with and without its trailing slash. */
  lemma TrailingSlashIgnored(path: string)
    requires path == [] || path[|path| - 1] != '/'
    ensures TrimSlash(path + "/") == path && TrimSlash(path) == path
  {
  }

  ghost predicate NoRepeats(g: Graph) {
    forall u :: Distinct(Succ(g, u))
  }

  /** g and h hold the same edges in opposite directions, between nodes only and each once. */
  ghost predicate Mirror(g: Graph, h: Graph) {
    && Closed(g) && Closed(h) && NoRepeats(g) && NoRepeats(h)
    && forall u, v :: Edge(g, u, v) <==> Edge(h, v, u)
  }

  ghost predicate Counted(nodes: map<string, Node>, g: Graph, h: Graph) {
    forall u | u in nodes :: nodes[u] == Node(|Succ(g, u)|, |Succ(h, u)|)
  }

  lemma ClosedWithEdge(g: Graph, u: string, v: string)
    requires Closed(g) && NoRepeats(g) && u in g.nodes && v in g.nodes && !Edge(g, u, v)
    ensures var g' := Graph(g.nodes, WithEdge(g.adj, u, v));
            && Closed(g') && NoRepeats(g')
            && (forall x :: Succ(g', x) == if x == u then Succ(g, u) + [v] else Succ(g, x))
            && (forall x, y :: Edge(g', x, y) <==> Edge(g, x, y) || (x == u && y == v))
  {
    var g' := Graph(g.nodes, WithEdge(g.adj, u, v));
    SuccWithEdge(g, u, v);
    hide Succ, WithEdge;
    assert forall x, y :: Edge(g', x, y) <==> Edge(g, x, y) || (x == u && y == v);
    hide Edge;
    assert Distinct(Succ(g, u) + [v]) by {
      assert Distinct(Succ(g, u)) && v !in Succ(g, u);
    }
  }

  lemma SuccWithEdge(g: Graph, u: string, v: string)
    ensures forall x ::
              Succ(Graph(g.nodes, WithEdge(g.adj, u, v)), x) == if x == u then Succ(g, u) + [v] else Succ(g, x)
    ensures !Edge(g, u, v) ==> v !in Succ(g, u)
  {
  }

  function Bump(nodes: map<string, Node>, from: string, to: string): map<string, Node>
    requires from in nodes && to in nodes
  {
    var once := nodes[from := nodes[from].(inDegree := nodes[from].inDegree + 1)];
    once[to := once[to].(outDegree := once[to].outDegree + 1)]
  }

  lemma MirrorWithEdge(g: Graph, h: Graph, u: string, v: string)
    requires Mirror(g, h) && u in g.nodes && v in g.nodes && !Edge(g, u, v) && g.nodes == h.nodes
    ensures !Edge(h, v, u)
    ensures Mirror(Graph(g.nodes, WithEdge(g.adj, u, v)), Graph(h.nodes, WithEdge(h.adj, v, u)))
  {
    assert Edge(h, v, u) ==> Edge(g, u, v);
    ClosedWithEdge(g, u, v);
    ClosedWithEdge(h, v, u);
  }

  lemma CountedWithEdge(nodes: map<string, Node>, g: Graph, h: Graph, u: string, v: string)
    requires Counted(nodes, g, h) && u in nodes && v in nodes
    ensures var nodes' := Bump(nodes, u, v);
            && nodes'.Keys == nodes.Keys
            && Counted(nodes', Graph(g.nodes, WithEdge(g.adj, u, v)), Graph(h.nodes, WithEdge(h.adj, v, u)))
  {
  }

  lemma NewNodeHasNoEdges(g: Graph, h: Graph, id: string)
    requires Mirror(g, h) && g.nodes == h.nodes && id !in g.nodes
    ensures Succ(g, id) == [] && Succ(h, id) == []
    ensures Mirror(Graph(g.nodes + {id}, g.adj), Graph(h.nodes + {id}, h.adj))
  {
    var g', h' := Graph(g.nodes + {id}, g.adj), Graph(h.nodes + {id}, h.adj);
    assert forall u :: Succ(g', u) == Succ(g, u) && Succ(h', u) == Succ(h, u);
    assert forall u, v :: Edge(g', u, v) == Edge(g, u, v) && Edge(h', u, v) == Edge(h, u, v);
    assert forall v :: Edge(g, id, v) ==> id in g.nodes;
    assert forall v :: Edge(h, id, v) ==> id in h.nodes;
    SomeEdge(g, id);
    SomeEdge(h, id);
  }

  lemma SomeEdge(g: Graph, u: string)
    ensures Succ(g, u) != [] ==> exists v :: Edge(g, u, v)
  {
    if Succ(g, u) != [] {
      assert Edge(g, u, Succ(g, u)[0]);
    }
  }

  class DependencyGraph {
    var nodes: map<string, Node>
    var edges: map<string, seq<string>>
    var reverseEdges: map<string, seq<string>>
    var libraryUsage: map<string, seq<string>>
    var diagnostics: seq<(string, string)>

    function View(): Graph
      reads this
    {
      Graph(nodes.Keys, edges)
    }

    function ReverseView(): Graph
      reads this
    {
      Graph(nodes.Keys, reverseEdges)
    }

    ghost predicate Valid()
      reads this
    {
      Mirror(View(), ReverseView()) && Counted(nodes, View(), ReverseView())
    }

    constructor ()
      ensures Valid() && nodes == map[] && edges == map[] && reverseEdges == map[]
      ensures libraryUsage == map[] && diagnostics == []
    {
      nodes, edges, reverseEdges := map[], map[], map[];
      libraryUsage, diagnostics := map[], [];
    }

    method AddNode(id: string)
      requires Valid()
      modifies this`nodes
      ensures Valid()
      ensures nodes == if id in old(nodes) then old(nodes) else old(nodes)[id := Node(0, 0)]
    {
      if id !in nodes {
        NewNodeHasNoEdges(View(), ReverseView(), id);
        ghost var g, h := View(), ReverseView();
        nodes := nodes[id := Node(0, 0)];
        assert View() == Graph(g.nodes + {id}, g.adj);
        assert ReverseView() == Graph(h.nodes + {id}, h.adj);
        assert forall u :: Succ(View(), u) == Succ(g, u) && Succ(ReverseView(), u) == Succ(h, u);
      }
    }

    /** Records that one module depends on another; repeats and unknown endpoints change no edge. */
    method AddEdge(from: string, to: string)
      requires Valid()
      modifies this`nodes, this`edges, this`reverseEdges, this`diagnostics
      ensures Valid() && nodes.Keys == old(nodes.Keys)
      ensures var known := from in old(nodes) && to in old(nodes);
              var added := known && !old(Edge(View(), from, to));
              && edges == (if added then WithEdge(old(edges), from, to) else old(edges))
              && reverseEdges == (if added then WithEdge(old(reverseEdges), to, from) else old(reverseEdges))
              && diagnostics == (if known then old(diagnostics) else old(diagnostics) + [(from, to)])
    {
      if from !in nodes || to !in nodes {
        diagnostics := diagnostics + [(from, to)];
        return;
      }
      if to in Succ(View(), from) {
        return;
      }
      ghost var g, h := View(), ReverseView();
      MirrorWithEdge(g, h, from, to);
      CountedWithEdge(nodes, g, h, from, to);
      edges := WithEdge(edges, from, to);
      reverseEdges := WithEdge(reverseEdges, to, from);
      nodes := Bump(nodes, from, to);
      assert View() == Graph(g.nodes, WithEdge(g.adj, from, to));
      assert ReverseView() == Graph(h.nodes, WithEdge(h.adj, to, from));
    }

    method AddLibraryUsage(libraryPath: string, moduleID: string)
      modifies this`libraryUsage
      ensures var path := TrimSlash(libraryPath);
              var users := if path in old(libraryUsage) then old(libraryUsage)[path] else [];
              libraryUsage == if moduleID in users then old(libraryUsage)
                              else old(libraryUsage)[path := users + [moduleID]]
    {
      var path := TrimSlash(libraryPath);
      var users := if path in libraryUsage then libraryUsage[path] else [];
      if moduleID !in users {
        libraryUsage := libraryUsage[path := users + [moduleID]];
      }
    }

    /** The modules kept and exactly the edges between them, adjacency order preserved. */
    method Subgraph(moduleIDs: seq<string>) returns (sub: DependencyGraph)
      requires Valid()
      ensures fresh(sub) && sub.Valid() && sub.diagnostics == []
      ensures sub.nodes.Keys == nodes.Keys * Elements(moduleIDs)
      ensures RestrictedTo(sub.View(), View(), Elements(moduleIDs), Elements(moduleIDs))
    {
      sub := new DependencyGraph();
      var moduleSet := Elements(moduleIDs);
      var rest := moduleSet;
      while rest != {}
        invariant rest <= moduleSet && fresh(sub) && sub.Valid()
        invariant sub.nodes.Keys == nodes.Keys * (moduleSet - rest)
        invariant sub.edges == map[] && sub.diagnostics == []
        decreases rest
      {
        var id :| id in rest;
        if id in nodes {
          sub.AddNode(id);
        }
        rest := rest - {id};
      }
      rest := moduleSet;
      while rest != {}
        invariant rest <= moduleSet && fresh(sub) && sub.Valid()
        invariant sub.nodes.Keys == nodes.Keys * moduleSet && sub.diagnostics == []
        invariant RestrictedTo(sub.View(), View(), moduleSet, moduleSet - rest)
        decreases rest
      {
        var from :| from in rest;
        CopyEdges(from, moduleSet, moduleSet - rest, sub);
        rest := rest - {from};
        assert moduleSet - rest == (moduleSet - rest - {from}) + {from};
      }
    }

    /** One round of Subgraph's edge loop: copy the edges leaving one kept module. */
    method CopyEdges(from: string, keep: set<string>, ghost copied: set<string>, sub: DependencyGraph)
      requires Valid() && sub.Valid() && sub != this
      requires sub.nodes.Keys == nodes.Keys * keep && sub.diagnostics == []
      requires from in keep && from !in copied && RestrictedTo(sub.View(), View(), keep, copied)
      modifies sub
      ensures sub.Valid() && sub.nodes.Keys == nodes.Keys * keep && sub.diagnostics == []
      ensures RestrictedTo(sub.View(), View(), keep, copied + {from})
    {
      var targets := Succ(View(), from);
      TargetsAreNodes(View(), ReverseView(), from);
      hide Valid, Mirror, Edge, WithEdge, RestrictedTo, Succ, CopiedTo;
      ghost var start := sub.View();
      NothingCopied(start, View(), keep, copied, from);
      for k := 0 to |targets|
        invariant Valid() && View() == old(View())
        invariant sub.Valid() && sub.nodes.Keys == nodes.Keys * keep && sub.diagnostics == []
        invariant CopiedTo(sub.View(), start, from, FilterIn(targets[..k], keep))
      {
        FilterInSnoc(targets, k, keep);
        if targets[k] in keep {
          CopyOne(start, sub.View(), from, targets, k, keep);
          sub.AddEdge(from, targets[k]);
        }
      }
      assert targets[..|targets|] == targets;
      CopiedIsRestricted(sub.View(), start, View(), keep, copied, from);
    }

    method GetAllDependencies(moduleID: string) returns (r: seq<string>)
      ensures Distinct(r) && forall v :: v in r <==> Reaches(View(), moduleID, v)
    {
      r := CollectTransitive(View(), moduleID);
    }

    method GetAllDependents(moduleID: string) returns (r: seq<string>)
      requires Valid()
      ensures Distinct(r) && forall v :: v in r <==> Reaches(View(), v, moduleID)
    {
      r := CollectTransitive(ReverseView(), moduleID);
      forall v ensures Reaches(ReverseView(), moduleID, v) <==> Reaches(View(), v, moduleID) {
        ReverseReaches(View(), ReverseView(), v, moduleID);
      }
    }

    method ScopeToModule(moduleID: string, showDependents: bool) returns (r: ScopeResult)
      requires Valid()
      ensures r.ModuleNotFound? <==> moduleID !in nodes
      ensures r.ModuleNotFound? ==> r.id == moduleID
      ensures r.Scoped? ==>
                var h := r.graph;
                && fresh(h) && h.Valid()
                && (forall v :: v in h.nodes <==> v in nodes && InScope(View(), moduleID, showDependents, v))
                && (forall u, v :: Edge(h.View(), u, v) <==>
                       Edge(View(), u, v) && u in h.nodes && v in h.nodes)
    {
      if moduleID !in nodes {
        return ModuleNotFound(moduleID);
      }
      var ids;
      if showDependents {
        ids := GetAllDependents(moduleID);
      } else {
        ids := GetAllDependencies(moduleID);
      }
      ids := [moduleID] + ids;
      var sub := Subgraph(ids);
      forall u, v ensures Edge(sub.View(), u, v) <==>
                          Edge(View(), u, v) && u in sub.nodes && v in sub.nodes {
        assert Edge(View(), u, v) ==> u in nodes && v in nodes;
      }
      r := Scoped(sub);
    }

    /** The changed modules with everything that depends on one of them or that one depends on. */
    method GetAffectedModules(changedModules: seq<string>) returns (r: seq<string>)
      requires Valid()
      ensures Ascending(r)
      ensures forall v :: v in r <==> AffectedBy(View(), changedModules, v)
    {
      var affected: set<string> := {};
      for i := 0 to |changedModules|
        invariant forall v :: v in affected <==> AffectedBy(View(), changedModules[..i], v)
      {
        var m := changedModules[i];
        var up := GetAllDependents(m);
        var down := GetAllDependencies(m);
        affected := affected + {m} + Elements(up) + Elements(down);
        assert changedModules[..i + 1] == changedModules[..i] + [m];
        AffectedBySnoc(View(), changedModules[..i], m);
      }
      assert changedModules[..|changedModules|] == changedModules;
      r := SortedKeys(affected);
      assert forall v :: v in r <==> v in Elements(r);
    }

    /** The modules that use a changed library or a library nested below a changed path. */
    method GetAffectedByLibraryChanges(changed: seq<string>) returns (r: seq<string>)
      ensures Ascending(r)
      ensures forall m :: m in r <==> UsesChangedLibrary(libraryUsage, changed, m)
    {
      var affected: set<string> := {};
      for i := 0 to |changed|
        invariant forall m :: m in affected <==>
                    exists l | l in changed[..i] ::
                      TrimSlash(l) in libraryUsage && m in libraryUsage[TrimSlash(l)]
      {
        assert changed[..i + 1] == changed[..i] + [changed[i]];
        var path := TrimSlash(changed[i]);
        if path in libraryUsage {
          affected := affected + Elements(libraryUsage[path]);
        }
      }
      assert changed[..|changed|] == changed;
      ghost var direct := affected;
      for i := 0 to |changed|
        invariant forall m ::
                  m in affected <==> m in direct || UsesNested(libraryUsage, changed[..i], libraryUsage.Keys, m)
      {
        assert changed[..i + 1] == changed[..i] + [changed[i]];
        ghost var before := affected;
        var prefix := TrimSlash(changed[i]) + "/";
        var rest := libraryUsage.Keys;
        while rest != {}
          invariant rest <= libraryUsage.Keys
          invariant forall m :: m in affected <==>
                      m in before || UsesNested(libraryUsage, [changed[i]], libraryUsage.Keys - rest, m)
          decreases rest
        {
          var tracked :| tracked in rest;
          if prefix <= tracked {
            affected := affected + Elements(libraryUsage[tracked]);
          }
          rest := rest - {tracked};
        }
      }
      r := SortedKeys(affected);
      assert forall v :: v in r <==> v in Elements(r);
    }

    /** Module changes as above; library changes add their users and what those depend on. */
    method GetAffectedModulesWithLibraries(changedModules: seq<string>, changedLibraries: seq<string>)
      returns (r: seq<string>)
      requires Valid()
      ensures Ascending(r)
      ensures forall v :: v in r <==>
                || AffectedBy(View(), changedModules, v)
                || exists m :: UsesChangedLibrary(libraryUsage, changedLibraries, m) && ReachesOrIs(View(), m, v)
    {
      var direct := GetAffectedModules(changedModules);
      var users := GetAffectedByLibraryChanges(changedLibraries);
      var affected := Elements(direct);
      for i := 0 to |users|
        invariant forall v :: v in affected <==> v in direct || ReachedFromAny(View(), users[..i], v)
      {
        assert users[..i + 1] == users[..i] + [users[i]];
        ReachedFromAnySnoc(View(), users[..i], users[i]);
        var deps := GetAllDependencies(users[i]);
        affected := affected + {users[i]} + Elements(deps);
      }
      assert users[..|users|] == users;
      r := SortedKeys(affected);
      assert forall v :: v in r <==> v in Elements(r);
    }
  }

  /** h has the edges of g that start in copied and end in keep, in g's order. */
  ghost predicate RestrictedTo(h: Graph, g: Graph, keep: set<string>, copied: set<string>) {
    forall u :: Succ(h, u) == if u in copied then FilterIn(Succ(g, u), keep) else []
  }

  /** h is g with the adjacency list of u replaced. */
  ghost predicate CopiedTo(h: Graph, g: Graph, u: string, list: seq<string>) {
    Succ(h, u) == list && forall x | x != u :: Succ(h, x) == Succ(g, x)
  }

  lemma NothingCopied(h: Graph, g: Graph, keep: set<string>, copied: set<string>, u: string)
    requires RestrictedTo(h, g, keep, copied) && u !in copied
    ensures CopiedTo(h, h, u, [])
  {
  }

  lemma CopiedIsRestricted(h: Graph, start: Graph, g: Graph, keep: set<string>, copied: set<string>, u: string)
    requires RestrictedTo(start, g, keep, copied) && CopiedTo(h, start, u, FilterIn(Succ(g, u), keep))
    ensures RestrictedTo(h, g, keep, copied + {u})
  {
  }

  lemma TargetsAreNodes(g: Graph, h: Graph, u: string)
    requires Mirror(g, h)
    ensures Distinct(Succ(g, u)) && forall v | v in Succ(g, u) :: u in g.nodes && v in g.nodes
  {
    assert forall v :: v in Succ(g, u) <==> Edge(g, u, v);
  }

  lemma CopyOne(start: Graph, before: Graph, from: string, targets: seq<string>, k: nat, keep: set<string>)
    requires k < |targets| && Distinct(targets) && targets[k] in keep
    requires CopiedTo(before, start, from, FilterIn(targets[..k], keep))
    ensures !Edge(before, from, targets[k])
    ensures CopiedTo(Graph(before.nodes, WithEdge(before.adj, from, targets[k])), start, from,
                     FilterIn(targets[..k + 1], keep))
  {
    FilterInSnoc(targets, k, keep);
    assert targets[k] !in targets[..k];
  }

  ghost predicate InScope(g: Graph, m: string, dependents: bool, v: string) {
    v == m || if dependents then Reaches(g, v, m) else Reaches(g, m, v)
  }

  ghost predicate Touches(g: Graph, m: string, v: string) {
    v == m || Reaches(g, v, m) || Reaches(g, m, v)
  }

  ghost predicate AffectedBy(g: Graph, changed: seq<string>, v: string) {
    exists m :: m in changed && Touches(g, m, v)
  }

  lemma AffectedBySnoc(g: Graph, changed: seq<string>, m: string)
    ensures forall v :: AffectedBy(g, changed + [m], v) <==> AffectedBy(g, changed, v) || Touches(g, m, v)
  {
    forall v | AffectedBy(g, changed, v) ensures AffectedBy(g, changed + [m], v) {
      var x :| x in changed && Touches(g, x, v);
      assert x in changed + [m];
    }
    assert m in changed + [m];
  }

  ghost predicate ReachedFromAny(g: Graph, starts: seq<string>, v: string) {
    exists m :: m in starts && ReachesOrIs(g, m, v)
  }

  lemma ReachedFromAnySnoc(g: Graph, starts: seq<string>, m: string)
    ensures forall v :: ReachedFromAny(g, starts + [m], v) <==> ReachedFromAny(g, starts, v) || ReachesOrIs(g, m, v)
  {
    forall v | ReachedFromAny(g, starts, v) ensures ReachedFromAny(g, starts + [m], v) {
      var x :| x in starts && ReachesOrIs(g, x, v);
      assert x in starts + [m];
    }
    assert m in starts + [m];
  }

  ghost predicate UsesNested(usage: map<string, seq<string>>, changed: seq<string>, tracked: set<string>, m: string) {
    exists l, t :: l in changed && t in tracked && t in usage && m in usage[t] && TrimSlash(l) + "/" <= t
  }

  ghost predicate UsesChangedLibrary(usage: map<string, seq<string>>, changed: seq<string>, m: string) {
    || (exists l | l in changed :: TrimSlash(l) in usage && m in usage[TrimSlash(l)])
    || UsesNested(usage, changed, usage.Keys, m)
  }

  /** A change reported with a trailing slash affects the users of the path reported without. */
  lemma SlashedChangeAffectsSame(usage: map<string, seq<string>>, changed: seq<string>, slashed: seq<string>, m: string)
    requires |changed| == |slashed|
    requires forall i | 0 <= i < |changed| ::
               && (changed[i] == [] || changed[i][|changed[i]| - 1] != '/')
               && (slashed[i] == changed[i] || slashed[i] == changed[i] + "/")
    ensures UsesChangedLibrary(usage, changed, m) <==> UsesChangedLibrary(usage, slashed, m)
  {
    forall i | 0 <= i < |changed| ensures TrimSlash(changed[i]) == TrimSlash(slashed[i]) {
      TrailingSlashIgnored(changed[i]);
    }
    if UsesChangedLibrary(usage, changed, m) {
      SamePathsAffectSame(usage, changed, slashed, m);
    }
    if UsesChangedLibrary(usage, slashed, m) {
      SamePathsAffectSame(usage, slashed, changed, m);
    }
  }

  lemma SamePathsAffectSame(usage: map<string, seq<string>>, a: seq<string>, b: seq<string>, m: string)
    requires |a| == |b| && forall i | 0 <= i < |a| :: TrimSlash(a[i]) == TrimSlash(b[i])
    requires UsesChangedLibrary(usage, a, m)
    ensures UsesChangedLibrary(usage, b, m)
  {
    hide TrimSlash;
    if l :| l in a && TrimSlash(l) in usage && m in usage[TrimSlash(l)] {
      var i :| 0 <= i < |a| && a[i] == l;
      assert b[i] in b;
    } else {
      var l, t :| l in a && t in usage.Keys && t in usage && m in usage[t] && TrimSlash(l) + "/" <= t;
      var i :| 0 <= i < |a| && a[i] == l;
      assert b[i] in b && TrimSlash(b[i]) + "/" <= t;
      assert UsesNested(usage, b, usage.Keys, m);
    }
  }

  lemma ReverseReachesOneWay(g: Graph, h: Graph, u: string, v: string)
    requires forall x, y :: Edge(g, x, y) ==> Edge(h, y, x)
    requires Reaches(g, u, v)
    ensures Reaches(h, v, u)
  {
    var p :| Path(g, p, u, v);
    assert Edge(g, p[0], p[1]);
    EdgeReaches(h, p[1], p[0]);
    var i := 1;
    while i < |p| - 1
      invariant 1 <= i < |p| && Reaches(h, p[i], u)
    {
      assert Edge(g, p[i], p[i + 1]);
      StepThenReach(h, p[i + 1], p[i], u);
      i := i + 1;
    }
  }

  lemma ReverseReaches(g: Graph, h: Graph, u: string, v: string)
    requires forall x, y :: Edge(g, x, y) <==> Edge(h, y, x)
    ensures Reaches(g, u, v) <==> Reaches(h, v, u)
  {
    if Reaches(g, u, v) {
      ReverseReachesOneWay(g, h, u, v);
    }
    if Reaches(h, v, u) {
      ReverseReachesOneWay(h, g, v, u);
    }
  }

  ghost predicate SuccIn(g: Graph, u: string, s: set<string>) {
    forall v | Edge(g, u, v) :: v in s
  }

  /** Everything found whose own edges are still to be followed is on the stack. */
  ghost predicate Followed(g: Graph, start: string, visited: set<string>, stack: seq<string>) {
    forall u {:trigger SuccIn(g, u, visited)} | (u == start || u in visited) && u !in stack :: SuccIn(g, u, visited)
  }

  ghost function Targets(g: Graph): set<string> {
    set u, v | u in g.adj && v in g.adj[u] :: v
  }

  ghost function ReachSet(g: Graph, start: string): set<string> {
    set v | v in Targets(g) && Reaches(g, start, v)
  }

  lemma ReachSetExact(g: Graph, start: string)
    ensures forall v :: v in ReachSet(g, start) <==> Reaches(g, start, v)
    ensures forall u | u == start || u in ReachSet(g, start) :: SuccIn(g, u, ReachSet(g, start))
  {
    forall v | Reaches(g, start, v) ensures v in Targets(g) {
      var w := LastStep(g, start, v);
      assert v in g.adj[w];
    }
    forall u, v | (u == start || u in ReachSet(g, start)) && Edge(g, u, v)
      ensures v in ReachSet(g, start)
    {
      ReachThenStep(g, start, u, v);
    }
  }

  /** A set of nodes reached from start that start's edges and its own stay inside is all start reaches. */
  lemma FollowedIsAll(g: Graph, start: string, visited: set<string>)
    requires Followed(g, start, visited, []) && visited <= ReachSet(g, start)
    ensures visited == ReachSet(g, start)
  {
    ReachSetExact(g, start);
    assert SuccIn(g, start, visited);
    forall x, y | x in visited && Edge(g, x, y) ensures y in visited {
      assert SuccIn(g, x, visited);
    }
    forall v | v in ReachSet(g, start) ensures v in visited {
      ReachedStaysInside(g, visited, start, v);
    }
  }

  /** One round of the search: mark, list and stack the neighbours not seen before. */
  method VisitNeighbours(next: seq<string>, visited0: set<string>, result0: seq<string>, stack0: seq<string>)
    returns (visited: set<string>, result: seq<string>, stack: seq<string>)
    requires Distinct(result0) && visited0 == Elements(result0)
    ensures Distinct(result) && visited == Elements(result) == visited0 + Elements(next)
    ensures stack0 <= stack && (visited == visited0 ==> stack == stack0)
    ensures forall v | v in stack :: v in stack0 || v in next
    ensures forall v | v in visited && v !in visited0 :: v in stack
  {
    visited, result, stack := visited0, result0, stack0;
    for k := 0 to |next|
      invariant Distinct(result) && visited == Elements(result) == visited0 + Elements(next[..k])
      invariant stack0 <= stack && (visited == visited0 ==> stack == stack0)
      invariant forall v | v in stack :: v in stack0 || v in next
      invariant forall v | v in visited && v !in visited0 :: v in stack
    {
      assert next[..k + 1] == next[..k] + [next[k]];
      if next[k] !in visited {
        assert next[k] !in Elements(result);
        ElementsSnoc(result, next[k]);
        visited := visited + {next[k]};
        result := result + [next[k]];
        stack := stack + [next[k]];
      }
    }
    assert next[..|next|] == next;
  }

  /**
   Depth-first search with an explicit stack: exactly the nodes one or more steps away, each once.
   The start itself is listed only when it lies on a cycle.
   */
  method CollectTransitive(g: Graph, start: string) returns (result: seq<string>)
    ensures Distinct(result)
    ensures forall v :: v in result <==> Reaches(g, start, v)
  {
    var visited: set<string> := {};
    result := [];
    var stack := [start];
    ghost var reach := ReachSet(g, start);
    hide Followed, ReachSet, Reaches, Succ;
    FollowedAtStart(g, start);
    while |stack| > 0
      invariant Distinct(result) && visited == Elements(result) && visited <= reach
      invariant forall v | v in stack :: v == start || v in reach
      invariant Followed(g, start, visited, stack)
      decreases |reach - visited|, |stack|
    {
      var n := stack[|stack| - 1];
      ghost var popped, before := stack, visited;
      stack := stack[..|stack| - 1];
      NextIsReached(g, start, n);
      visited, result, stack := VisitNeighbours(Succ(g, n), visited, result, stack);
      FollowedAfter(g, start, before, popped, n, visited, stack);
      if visited != before {
        StrictSubsetIsSmaller(reach - visited, reach - before);
      }
    }
    assert stack == [];
    FollowedIsAll(g, start, visited);
    ReachSetExact(g, start);
    assert forall v :: v in result <==> v in Elements(result);
  }

  lemma NextIsReached(g: Graph, start: string, u: string)
    requires u == start || u in ReachSet(g, start)
    ensures forall v | v in Succ(g, u) :: v in ReachSet(g, start)
  {
    ReachSetExact(g, start);
    assert SuccIn(g, u, ReachSet(g, start));
    assert forall v | v in Succ(g, u) :: Edge(g, u, v);
  }

  lemma FollowedAtStart(g: Graph, start: string)
    ensures Followed(g, start, {}, [start])
  {
  }

  lemma FollowedAfter(g: Graph, start: string, before: set<string>, popped: seq<string>, n: string,
                      visited: set<string>, stack: seq<string>)
    requires Followed(g, start, before, popped) && before <= visited
    requires popped != [] && popped[|popped| - 1] == n
    requires popped[..|popped| - 1] <= stack
    requires forall v | v in visited && v !in before :: v in stack
    requires forall v | v in Succ(g, n) :: v in visited
    ensures Followed(g, start, visited, stack)
  {
    assert popped == popped[..|popped| - 1] + [n];
    forall u {:trigger SuccIn(g, u, visited)} | (u == start || u in visited) && u !in stack
      ensures SuccIn(g, u, visited)
    {
      if u != n {
        assert SuccIn(g, u, before);
      }
    }
  }

  /** The dependencies extracted for the modules seen so far, and the libraries they use. */
  ghost predicate Extracted(g: Graph, usage: map<string, seq<string>>, deps: map<string, ModuleDependencies>,
                            seen: set<string>)
  {
    && (forall u, v :: Edge(g, u, v) <==>
          u in g.nodes && v in g.nodes && u in seen && u in deps && v in deps[u].dependsOn)
    && (forall path, m :: Uses(usage, path, m) <==> m in seen && m in deps && Imports(deps[m].libraries, path))
  }

  ghost predicate Uses(usage: map<string, seq<string>>, path: string, m: string) {
    path in usage && m in usage[path]
  }

  ghost predicate Imports(libraries: seq<string>, path: string) {
    exists l :: l in libraries && TrimSlash(l) == path
  }

  /** The graph over the given modules whose edges are the extracted dependencies between them. */
  method BuildFromDependencies(modules: seq<string>, deps: map<string, ModuleDependencies>)
    returns (g: DependencyGraph)
    ensures fresh(g) && g.Valid() && g.nodes.Keys == Elements(modules)
    ensures Extracted(g.View(), g.libraryUsage, deps, deps.Keys)
  {
    g := new DependencyGraph();
    for i := 0 to |modules|
      invariant fresh(g) && g.Valid() && g.nodes.Keys == Elements(modules[..i])
      invariant g.edges == map[] && g.libraryUsage == map[]
    {
      assert modules[..i + 1] == modules[..i] + [modules[i]];
      g.AddNode(modules[i]);
    }
    assert modules[..|modules|] == modules;
    AddExtracted(g, deps);
  }

  /** Enter what was extracted, module by module in any order. */
  method AddExtracted(g: DependencyGraph, deps: map<string, ModuleDependencies>)
    requires g.Valid() && g.edges == map[] && g.libraryUsage == map[]
    modifies g
    ensures g.Valid() && g.nodes.Keys == old(g.nodes.Keys)
    ensures Extracted(g.View(), g.libraryUsage, deps, deps.Keys)
  {
    var rest := deps.Keys;
    NoneExtracted(g.View(), deps);
    hide Extracted, EdgesAdded, UsesAdded, DependencyGraph.Valid;
    assert deps.Keys - rest == {};
    while rest != {}
      invariant rest <= deps.Keys && g.Valid() && g.nodes.Keys == old(g.nodes.Keys)
      invariant Extracted(g.View(), g.libraryUsage, deps, deps.Keys - rest)
      decreases rest
    {
      var id :| id in rest;
      ghost var view, usage := g.View(), g.libraryUsage;
      AddEdges(g, id, deps[id].dependsOn);
      AddUses(g, id, deps[id].libraries);
      ExtractedMore(view, g.View(), usage, g.libraryUsage, deps, deps.Keys - rest, id);
      assert deps.Keys - (rest - {id}) == (deps.Keys - rest) + {id};
      rest := rest - {id};
    }
    assert deps.Keys - rest == deps.Keys;
  }

  ghost predicate EdgesAdded(h: Graph, g: Graph, id: string, targets: seq<string>) {
    forall u, v :: Edge(h, u, v) <==> (Edge(g, u, v) || (u == id && v in targets && u in g.nodes && v in g.nodes))
  }

  ghost predicate UsesAdded(after: map<string, seq<string>>, before: map<string, seq<string>>,
                            id: string, libraries: seq<string>) {
    forall path, m :: Uses(after, path, m) <==> (Uses(before, path, m) || (m == id && Imports(libraries, path)))
  }

  lemma NoneAdded(g: Graph, id: string)
    ensures EdgesAdded(g, g, id, [])
  {
  }

  lemma EdgeAdded(g: Graph, id: string, target: string)
    ensures id in g.nodes && target in g.nodes ==>
            EdgesAdded(Graph(g.nodes, WithEdge(g.adj, id, target)), g, id, [target])
    ensures id !in g.nodes || target !in g.nodes || Edge(g, id, target) ==> EdgesAdded(g, g, id, [target])
  {
  }

  lemma EdgesAddedSnoc(h: Graph, mid: Graph, g: Graph, id: string, targets: seq<string>, target: string)
    requires EdgesAdded(mid, g, id, targets) && EdgesAdded(h, mid, id, [target]) && mid.nodes == g.nodes
    ensures EdgesAdded(h, g, id, targets + [target])
  {
  }

  method AddEdges(g: DependencyGraph, id: string, targets: seq<string>)
    requires g.Valid()
    modifies g`nodes, g`edges, g`reverseEdges, g`diagnostics
    ensures g.Valid() && g.nodes.Keys == old(g.nodes.Keys)
    ensures EdgesAdded(g.View(), old(g.View()), id, targets)
  {
    hide EdgesAdded, Mirror, Counted, WithEdge, Edge;
    NoneAdded(g.View(), id);
    for k := 0 to |targets|
      invariant g.Valid() && g.nodes.Keys == old(g.nodes.Keys)
      invariant EdgesAdded(g.View(), old(g.View()), id, targets[..k])
    {
      assert targets[..k + 1] == targets[..k] + [targets[k]];
      ghost var before := g.View();
      EdgeAdded(before, id, targets[k]);
      g.AddEdge(id, targets[k]);
      EdgesAddedSnoc(g.View(), before, old(g.View()), id, targets[..k], targets[k]);
    }
    assert targets[..|targets|] == targets;
  }

  lemma NoneExtracted(g: Graph, deps: map<string, ModuleDependencies>)
    requires g.adj == map[]
    ensures Extracted(g, map[], deps, {})
  {
  }

  lemma ExtractedMore(before: Graph, after: Graph, usage: map<string, seq<string>>, usage': map<string, seq<string>>,
                      deps: map<string, ModuleDependencies>, seen: set<string>, id: string)
    requires Extracted(before, usage, deps, seen) && id in deps && before.nodes == after.nodes
    requires EdgesAdded(after, before, id, deps[id].dependsOn) && UsesAdded(usage', usage, id, deps[id].libraries)
    ensures Extracted(after, usage', deps, seen + {id})
  {
  }

  method AddUses(g: DependencyGraph, id: string, libraries: seq<string>)
    modifies g`libraryUsage
    ensures UsesAdded(g.libraryUsage, old(g.libraryUsage), id, libraries)
  {
    for k := 0 to |libraries|
      invariant UsesAdded(g.libraryUsage, old(g.libraryUsage), id, libraries[..k])
    {
      assert libraries[..k + 1] == libraries[..k] + [libraries[k]];
      ImportsSnoc(libraries[..k], libraries[k]);
      ghost var before := g.libraryUsage;
      g.AddLibraryUsage(libraries[k], id);
      assert forall path, m :: Uses(g.libraryUsage, path, m) <==>
                               (Uses(before, path, m) || (m == id && TrimSlash(libraries[k]) == path));
    }
    assert libraries[..|libraries|] == libraries;
  }

  lemma ImportsSnoc(libraries: seq<string>, l: string)
    ensures forall path :: Imports(libraries + [l], path) <==> Imports(libraries, path) || TrimSlash(l) == path
  {
    forall path | Imports(libraries, path) ensures Imports(libraries + [l], path) {
      var x :| x in libraries && TrimSlash(x) == path;
      assert x in libraries + [l];
    }
    assert l in libraries + [l];
  }
}
