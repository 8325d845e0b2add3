/**
 Depth-first cycle detection over the module graph: the walk from the root of the search is kept
 in `path`, its members in `recStack`, and a cycle is cut out of it at every back edge.
 */
module CycleDetection {
  import opened Digraph
  import opened ModuleGraph
  import opened DepthFirst
  import opened CycleCoverage

  method FindIndex(slice: seq<string>, value: string) returns (i: int)
    ensures -1 <= i < |slice|
    ensures if i >= 0 then slice[i] == value && value !in slice[..i] else value !in slice
  {
    for k := 0 to |slice|
      invariant value !in slice[..k]
    {
      assert slice[..k + 1] == slice[..k] + [slice[k]];
      if slice[k] == value {
        return k;
      }
    }
    assert slice[..|slice|] == slice;
    return -1;
  }

  class CycleFinder {
    const graph: Graph
    var visited: set<string>
    var recStack: set<string>
    var path: seq<string>
    var cycles: seq<seq<string>>
    ghost var entry: map<string, seq<string>>

    /** The search as its specification sees it. */
    ghost function State(): Search
      reads this
    {
      Search(entry, path, cycles)
    }

    ghost predicate Valid()
      reads this
    {
      Closed(graph) && visited == entry.Keys && recStack == Elements(path) && recStack <= visited
    }

    constructor (g: Graph)
      requires Closed(g)
      ensures Valid() && graph == g && State() == START
    {
      graph := g;
      visited, recStack, path, cycles, entry := {}, {}, [], [], map[];
    }

    /** Try every node as a root. */
    method SearchRoots(order: seq<string>)
      requires Valid() && State() == START && RootOrder(graph, order)
      modifies this
      ensures Valid() && (forall v | v in order :: v in graph.nodes)
      ensures State() == SearchAll(graph, order)
    {
      assert Closed(graph) && forall v | v in order :: v in Elements(order);
      hide Valid, SearchAll, Visit, Grown, RootOrder;
      RootsNone(graph, order);
      for k := 0 to |order|
        invariant Valid() && State() == SearchAll(graph, order[..k])
      {
        SearchAllSnoc(graph, order, k);
        TryRoot(order[k]);
      }
      assert order[..|order|] == order;
    }

    method TryRoot(node: string)
      requires Valid() && node in graph.nodes
      modifies this
      ensures Valid() && State() == DepthFirst.TryRoot(graph, node, old(State()))
    {
      if node !in visited {
        Dfs(node);
      }
    }

    /** Explore everything below a node. */
    method Dfs(node: string)
      requires Valid() && node in graph.nodes && node !in visited
      modifies this
      ensures Valid() && State() == Visit(graph, node, old(State()))
      decreases |graph.nodes - visited|, 0
    {
      hide Elements, FollowAll, Closed, Succ;
      ghost var outer := path;
      Enter(node);
      OneMoreLeavesFewer(graph.nodes, old(visited), visited, node);
      FollowEdges(node);
      Leave(node, outer);
    }

    method Enter(node: string)
      requires Valid() && node !in visited
      modifies this
      ensures Valid() && State() == Entered(old(State()), node) && node !in old(path)
    {
      ElementsSnoc(path, node);
      assert node !in Elements(path);
      visited := visited + {node};
      recStack := recStack + {node};
      path := path + [node];
      entry := entry[node := path];
    }

    method Leave(node: string, ghost outer: seq<string>)
      requires Valid() && path == outer + [node] && node !in outer
      modifies this
      ensures Valid() && State() == old(State()).(path := outer)
    {
      ElementsSnoc(outer, node);
      path := path[..|path| - 1];
      recStack := recStack - {node};
    }

    method FollowEdges(node: string)
      requires Valid()
      modifies this
      ensures Valid() && forall v | v in Succ(graph, node) :: v in graph.nodes
      ensures State() == FollowAll(graph, Succ(graph, node), old(State()))
      decreases |graph.nodes - visited|, 2
    {
      SuccessorsAreNodes(graph, node);
      hide Follow, FollowAll, Edge, Succ, Closed, Elements;
      var neighbours := Succ(graph, node);
      for k := 0 to |neighbours|
        invariant Valid() && State() == FollowAll(graph, neighbours[..k], old(State()))
      {
        FollowAllSnoc(graph, neighbours, k, old(State()));
        SubsetIsNoLarger(graph.nodes - visited, graph.nodes - old(visited));
        FollowEdge(neighbours[k]);
      }
      assert neighbours[..|neighbours|] == neighbours;
    }

    /** One edge of the search: descend, report a cycle, or skip what is finished. */
    method FollowEdge(neighbour: string)
      requires Valid() && neighbour in graph.nodes
      modifies this
      ensures Valid() && State() == Follow(graph, neighbour, old(State()))
      decreases |graph.nodes - visited|, 1
    {
      if neighbour !in visited {
        Dfs(neighbour);
      } else if neighbour in recStack {
        var start := FindIndex(path, neighbour);
        if start >= 0 {
          CutAtFirst(path, start);
          cycles := cycles + [path[start..]];
        }
      }
    }
  }

  /**
   Whatever the order in which the nodes are iterated: the report is that of the specified search,
   every list in it is a simple cycle, and it is empty exactly for acyclic graphs.
   */
  method DetectCycles(g: DependencyGraph, order: seq<string>) returns (cycles: seq<seq<string>>)
    requires g.Valid() && RootOrder(g.View(), order)
    ensures cycles == Reported(g.View(), order)
    ensures forall c | c in cycles :: SimpleCycle(g.View(), c)
    ensures cycles == [] <==> Acyclic(g.View())
  {
    var finder := new CycleFinder(g.View());
    finder.SearchRoots(order);
    cycles := finder.cycles;
    ReportedAreSimple(g.View(), order);
    NothingReportedIff(g.View(), order);
  }
}
