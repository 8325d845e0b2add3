/**
 Kahn's algorithm over a min-heap, and the execution levels derived from it.
 */
module Topology {
  import opened Digraph
  import opened StringOrder
  import opened InDegree
  import opened ModuleGraph
  import Heap = StringHeap

  datatype SortResult = Sorted(order: seq<string>) | CycleDetected

  /** Every node once, dependencies first. */
  ghost predicate TopologicalOrder(g: Graph, r: seq<string>) {
    Distinct(r) && Elements(r) == g.nodes && DependenciesFirst(g, r)
  }

  /** a equals b or is smaller where they first differ. */
  ghost predicate NoLater(a: seq<string>, b: seq<string>) {
    a == b || exists i :: FirstSmallerAt(a, b, i)
  }

  ghost predicate FirstSmallerAt(a: seq<string>, b: seq<string>, i: int) {
    0 <= i < |a| && i < |b| && a[..i] == b[..i] && Less(a[i], b[i])
  }

  /** The lexicographically least of all topological orders. */
  ghost predicate LeastOrder(g: Graph, r: seq<string>) {
    TopologicalOrder(g, r) && forall t | TopologicalOrder(g, t) :: NoLater(r, t)
  }

  /** What can come next once done is out. */
  ghost function Available(g: Graph, done: set<string>): set<string> {
    Ready(g, done) - done
  }

  ghost predicate LeastAvailable(g: Graph, done: set<string>, x: string) {
    x in Available(g, done) && forall y | y in Available(g, done) :: AtMost(x, y)
  }

  ghost predicate Greedy(g: Graph, r: seq<string>) {
    forall i | 0 <= i < |r| :: LeastAvailable(g, Elements(r[..i]), r[i])
  }

  // ------------------------------------------------------------ greedy choice gives the least order

  lemma GreedySnoc(g: Graph, r: seq<string>, x: string)
    requires Greedy(g, r) && LeastAvailable(g, Elements(r), x)
    ensures Greedy(g, r + [x])
  {
    forall i | 0 <= i < |r + [x]| ensures LeastAvailable(g, Elements((r + [x])[..i]), (r + [x])[i]) {
      if i < |r| {
        assert (r + [x])[..i] == r[..i];
      } else {
        assert (r + [x])[..i] == r;
      }
    }
  }

  lemma GreedyIsOrdered(g: Graph, r: seq<string>)
    requires Greedy(g, r)
    ensures Distinct(r) && DependenciesFirst(g, r) && Elements(r) <= g.nodes
  {
    forall i, j | 0 <= i < j < |r| ensures r[i] != r[j] {
      assert LeastAvailable(g, Elements(r[..j]), r[j]);
      assert r[..j][i] in Elements(r[..j]);
    }
    forall i, v | 0 <= i < |r| && Edge(g, r[i], v) ensures v in r[..i] {
      assert LeastAvailable(g, Elements(r[..i]), r[i]);
      assert v in Elements(r[..i]);
    }
    forall x | x in Elements(r) ensures x in g.nodes {
      var i :| 0 <= i < |r| && r[i] == x;
      assert LeastAvailable(g, Elements(r[..i]), r[i]);
    }
  }

  lemma GreedyIsLeast(g: Graph, r: seq<string>)
    requires Greedy(g, r) && Elements(r) == g.nodes
    ensures LeastOrder(g, r)
  {
    GreedyIsOrdered(g, r);
    forall t | TopologicalOrder(g, t) ensures NoLater(r, t) {
      if r != t {
        DistinctCount(r);
        DistinctCount(t);
        FirstDifference(r, t);
        var i :| 0 <= i < |r| && r[..i] == t[..i] && r[i] != t[i];
        assert LeastAvailable(g, Elements(r[..i]), r[i]);
        forall v | Edge(g, t[i], v) ensures v in Elements(t[..i]) {
          assert v in t[..i];
        }
        assert t[i] in Elements(t);
        assert t[i] in Available(g, Elements(t[..i]));
        LessTotal(r[i], t[i]);
        assert FirstSmallerAt(r, t, i);
      }
    }
  }

  lemma NoLaterAntisymmetric(a: seq<string>, b: seq<string>)
    requires NoLater(a, b) && NoLater(b, a)
    ensures a == b
  {
    if a != b {
      var i :| FirstSmallerAt(a, b, i);
      var j :| FirstSmallerAt(b, a, j);
      LessAsymmetric(a[i], b[i]);
      LessIrreflexive(a[i]);
      LessIrreflexive(b[j]);
    }
  }

  /** The result is fixed by the nodes and the edge relation; insertion and iteration order play no part. */
  lemma LeastOrderUnique(g: Graph, h: Graph, r: seq<string>, s: seq<string>)
    requires g.nodes == h.nodes && forall u, v :: Edge(g, u, v) <==> Edge(h, u, v)
    requires LeastOrder(g, r) && LeastOrder(h, s)
    ensures r == s
  {
    assert TopologicalOrder(h, r) && TopologicalOrder(g, s);
    NoLaterAntisymmetric(r, s);
  }

  // ------------------------------------------------------------ when nothing is available

  lemma {:induction false} StuckHoldsReleased(g: Graph, done: set<string>, k: nat)
    requires Available(g, done) == {}
    ensures Done(g, k) <= done
  {
    if k > 0 {
      StuckHoldsReleased(g, done, k - 1);
      forall x | x in Done(g, k) ensures x in done {
        assert x in Ready(g, done);
        assert x in done || x in Available(g, done);
      }
    }
  }

  lemma StuckMeansCycle(g: Graph, r: seq<string>)
    requires Closed(g) && Greedy(g, r) && Available(g, Elements(r)) == {}
    ensures Distinct(r)
    ensures |r| == |g.nodes| <==> Acyclic(g)
    ensures |r| == |g.nodes| ==> Elements(r) == g.nodes
  {
    GreedyIsOrdered(g, r);
    DistinctCount(r);
    SubsetIsNoLarger(Elements(r), g.nodes);
    if Acyclic(g) {
      AcyclicIffAllReleased(g);
      StuckHoldsReleased(g, Elements(r), |g.nodes|);
      assert Elements(r) == g.nodes;
    } else if Elements(r) == g.nodes {
      OrderedIsAcyclic(g, r);
    }
  }

  // ------------------------------------------------------------ the sort

  /** The dependents of node whose only outstanding dependency node was. */
  ghost function Freed(g: Graph, done: set<string>, dependents: seq<string>): set<string> {
    set n | n in dependents && CountOutside(Succ(g, n), done) == 1
  }

  ghost predicate CountsMatch(g: Graph, inDegree: map<string, int>, done: set<string>) {
    inDegree.Keys == g.nodes && forall n | n in inDegree :: inDegree[n] == CountOutside(Succ(g, n), done)
  }

  /** Releasing node makes exactly the freed dependents available. */
  lemma AvailableAfter(g: Graph, h: Graph, r: seq<string>, node: string)
    requires Mirror(g, h) && g.nodes == h.nodes && Greedy(g, r) && node in Available(g, Elements(r))
    ensures var freed := Freed(g, Elements(r), Succ(h, node));
            && Available(g, Elements(r + [node])) == (Available(g, Elements(r)) - {node}) + freed
            && freed !! Available(g, Elements(r))
    ensures forall n | n in g.nodes ::
              CountOutside(Succ(g, n), Elements(r + [node])) ==
              CountOutside(Succ(g, n), Elements(r)) - if n in Succ(h, node) then 1 else 0
  {
    var done := Elements(r);
    GreedyIsOrdered(g, r);
    ElementsSnoc(r, node);
    forall n | n in g.nodes
      ensures CountOutside(Succ(g, n), done + {node}) ==
              CountOutside(Succ(g, n), done) - if n in Succ(h, node) then 1 else 0
    {
      CountAfterRelease(Succ(g, n), done, node);
      DistinctMultiplicity(Succ(g, n), node);
      assert Edge(g, n, node) <==> Edge(h, node, n);
    }
    forall n ensures n in Available(g, done + {node}) <==>
                     n in (Available(g, done) - {node}) + Freed(g, done, Succ(h, node))
    {
      assert Edge(h, node, n) ==> n in g.nodes;
      assert Edge(g, n, node) <==> Edge(h, node, n);
      NoneOutside(Succ(g, n), done);
      NoneOutside(Succ(g, n), done + {node});
      ReadyIffNoneOutside(g, done, n);
      ReadyIffNoneOutside(g, done + {node}, n);
      if n in done {
        var i :| 0 <= i < |r| && r[i] == n;
        assert node !in r[..i];
        assert !Edge(g, n, node);
      }
    }
    forall n | n in Freed(g, done, Succ(h, node)) ensures n !in Available(g, done) {
      assert Edge(h, node, n);
      assert Edge(g, n, node);
    }
  }

  lemma ReadyIffNoneOutside(g: Graph, done: set<string>, n: string)
    ensures n in Ready(g, done) <==> n in g.nodes && CountOutside(Succ(g, n), done) == 0
  {
    NoneOutside(Succ(g, n), done);
    assert forall v :: Edge(g, n, v) <==> v in Succ(g, n);
  }

  /** Heap loaded with every node without dependencies, whatever the iteration order. */
  method SeedHeap(g: Graph, inDegree: map<string, int>) returns (h: Heap.StringHeap)
    requires CountsMatch(g, inDegree, {})
    ensures fresh(h) && Heap.HeapOrdered(h.items)
    ensures multiset(h.items) == multiset(Available(g, {}))
  {
    h := new Heap.StringHeap();
    var rest := inDegree.Keys;
    ghost var loaded: set<string> := {};
    while rest != {}
      invariant fresh(h) && Heap.HeapOrdered(h.items) && rest <= g.nodes
      invariant loaded == set n | n in g.nodes - rest && inDegree[n] == 0
      invariant multiset(h.items) == multiset(loaded)
      decreases rest
    {
      var id :| id in rest;
      if inDegree[id] == 0 {
        h.Push(id);
        assert id !in loaded;
        loaded := loaded + {id};
      }
      rest := rest - {id};
    }
    forall n ensures n in loaded <==> n in Available(g, {}) {
      ReadyIffNoneOutside(g, {}, n);
    }
    assert loaded == Available(g, {});
  }

  /** Lower the count of every dependent and push those that reach zero. */
  method Release(g: Graph, dependents: seq<string>, counts: map<string, int>, ghost done: set<string>,
                 h: Heap.StringHeap)
    returns (inDegree: map<string, int>)
    requires CountsMatch(g, counts, done) && Distinct(dependents)
    requires forall n | n in dependents :: n in g.nodes && CountOutside(Succ(g, n), done) >= 1
    requires Heap.HeapOrdered(h.items)
    modifies h
    ensures inDegree.Keys == counts.Keys
    ensures forall n | n in counts :: inDegree[n] == counts[n] - if n in dependents then 1 else 0
    ensures Heap.HeapOrdered(h.items)
    ensures multiset(h.items) == multiset(old(h.items)) + multiset(Freed(g, done, dependents))
  {
    hide Freed, Heap.HeapOrdered, Distinct, CountsMatch;
    AllCounted(g, counts, done, dependents);
    inDegree := counts;
    ghost var freed: set<string> := {};
    for k := 0 to |dependents|
      invariant inDegree.Keys == counts.Keys
      invariant forall n | n in counts :: inDegree[n] == counts[n] - if n in dependents[..k] then 1 else 0
      invariant Heap.HeapOrdered(h.items) && freed == Freed(g, done, dependents[..k])
      invariant multiset(h.items) == multiset(old(h.items)) + multiset(freed)
    {
      var dep := dependents[k];
      FreedSnoc(g, done, dependents, k);
      inDegree := inDegree[dep := inDegree[dep] - 1];
      if inDegree[dep] == 0 {
        h.Push(dep);
        AddToMultiset(freed, dep);
        freed := freed + {dep};
      }
    }
    assert dependents[..|dependents|] == dependents;
  }

  lemma AllCounted(g: Graph, counts: map<string, int>, done: set<string>, dependents: seq<string>)
    requires CountsMatch(g, counts, done) && forall n | n in dependents :: n in g.nodes
    ensures forall n | n in dependents :: n in counts && counts[n] == CountOutside(Succ(g, n), done)
    ensures Freed(g, done, dependents[..0]) == {}
  {
  }

  lemma FreedSnoc(g: Graph, done: set<string>, dependents: seq<string>, k: nat)
    requires Distinct(dependents) && k < |dependents|
    ensures dependents[k] !in dependents[..k] && dependents[k] !in Freed(g, done, dependents[..k])
    ensures forall n :: n in dependents[..k + 1] <==> n in dependents[..k] || n == dependents[k]
    ensures Freed(g, done, dependents[..k + 1]) ==
            Freed(g, done, dependents[..k]) +
            if CountOutside(Succ(g, dependents[k]), done) == 1 then {dependents[k]} else {}
  {
    assert dependents[..k + 1] == dependents[..k] + [dependents[k]];
  }

  lemma AddToMultiset(s: set<string>, x: string)
    requires x !in s
    ensures multiset(s + {x}) == multiset(s) + multiset{x}
  {
  }

  method InitialCounts(g: DependencyGraph) returns (inDegree: map<string, int>)
    requires g.Valid()
    ensures CountsMatch(g.View(), inDegree, {})
  {
    inDegree := map id | id in g.nodes :: |Succ(g.View(), id)|;
    forall n | n in g.nodes ensures CountOutside(Succ(g.View(), n), {}) == |Succ(g.View(), n)| {
      AllOutside(Succ(g.View(), n));
    }
  }

  /** The loop invariant: what is out was chosen greedily, the heap holds what can come next. */
  ghost predicate SortState(g: Graph, items: seq<string>, inDegree: map<string, int>, result: seq<string>) {
    && Greedy(g, result) && CountsMatch(g, inDegree, Elements(result)) && Heap.HeapOrdered(items)
    && multiset(items) == multiset(Available(g, Elements(result)))
  }

  /** One round of the sort: take out the least available node and release its dependents. */
  method PopAndRelease(g: Graph, reversed: Graph, heap: Heap.StringHeap, counts: map<string, int>,
                       ghost before: seq<string>)
    returns (node: string, inDegree: map<string, int>)
    requires Mirror(g, reversed) && g.nodes == reversed.nodes
    requires SortState(g, heap.items, counts, before) && heap.items != []
    modifies heap
    ensures SortState(g, heap.items, inDegree, before + [node])
  {
    ghost var items := heap.items;
    node := heap.Pop();
    ghost var left := heap.items;
    PoppedIsLeast(g, items, left, before, node);
    DependentsWait(g, reversed, Elements(before), node);
    inDegree := Release(g, Succ(reversed, node), counts, Elements(before), heap);
    StateAfter(g, reversed, items, left, heap.items, counts, inDegree, before, node);
  }

  lemma PoppedIsLeast(g: Graph, items: seq<string>, left: seq<string>, before: seq<string>, node: string)
    requires multiset(items) == multiset(Available(g, Elements(before)))
    requires multiset(items) == multiset(left) + multiset{node}
    requires forall y | y in items :: AtMost(node, y)
    ensures LeastAvailable(g, Elements(before), node)
  {
    assert node in multiset(items);
    forall y | y in Available(g, Elements(before)) ensures AtMost(node, y) {
      assert y in multiset(items);
    }
  }

  lemma StateAfter(g: Graph, reversed: Graph, items: seq<string>, left: seq<string>, after: seq<string>,
                   counts: map<string, int>, inDegree: map<string, int>, before: seq<string>, node: string)
    requires Mirror(g, reversed) && g.nodes == reversed.nodes
    requires SortState(g, items, counts, before) && LeastAvailable(g, Elements(before), node)
    requires multiset(items) == multiset(left) + multiset{node}
    requires inDegree.Keys == counts.Keys && Heap.HeapOrdered(after)
    requires forall n | n in counts :: inDegree[n] == counts[n] - if n in Succ(reversed, node) then 1 else 0
    requires multiset(after) == multiset(left) + multiset(Freed(g, Elements(before), Succ(reversed, node)))
    ensures SortState(g, after, inDegree, before + [node])
  {
    assert node in Available(g, Elements(before));
    AvailableAfter(g, reversed, before, node);
    GreedySnoc(g, before, node);
    assert multiset(after) == multiset(Available(g, Elements(before + [node]))) by {
      var was, freed := Available(g, Elements(before)), Freed(g, Elements(before), Succ(reversed, node));
      HeapAfter(items, left, after, was, freed, node);
    }
    assert CountsMatch(g, inDegree, Elements(before + [node]));
  }

  lemma HeapAfter(items: seq<string>, left: seq<string>, after: seq<string>, was: set<string>, freed: set<string>,
                  node: string)
    requires multiset(items) == multiset(was) && multiset(items) == multiset(left) + multiset{node}
    requires multiset(after) == multiset(left) + multiset(freed) && freed !! was && node in was
    ensures multiset(after) == multiset((was - {node}) + freed)
  {
    assert multiset((was - {node}) + freed) == multiset(was - {node}) + multiset(freed);
    assert multiset(left) == multiset(items) - multiset{node};
    assert multiset(was - {node}) == multiset(was) - multiset{node};
  }

  lemma EmptyHeapMeansStuck(items: seq<string>, available: set<string>)
    requires multiset(items) == multiset(available) && items == []
    ensures available == {}
  {
    assert multiset(items) == multiset{};
    assert forall x :: x in available <==> x in multiset(available);
  }

  lemma GreedyFits(g: Graph, r: seq<string>)
    requires Greedy(g, r)
    ensures |r| <= |g.nodes|
  {
    GreedyIsOrdered(g, r);
    DistinctCount(r);
    SubsetIsNoLarger(Elements(r), g.nodes);
  }

  /** Fails exactly on cyclic graphs; otherwise the least topological order. */
  method TopologicalSort(g: DependencyGraph) returns (r: SortResult)
    requires g.Valid()
    ensures r.CycleDetected? <==> !Acyclic(g.View())
    ensures r.Sorted? ==> LeastOrder(g.View(), r.order)
  {
    var forward, reversed := g.View(), g.ReverseView();
    var inDegree := InitialCounts(g);
    assert Elements([]) == {};
    var heap := SeedHeap(forward, inDegree);
    var result: seq<string> := [];
    while heap.items != []
      invariant fresh(heap) && SortState(forward, heap.items, inDegree, result)
      decreases |forward.nodes| - |result|
    {
      var node;
      ghost var before := result;
      node, inDegree := PopAndRelease(forward, reversed, heap, inDegree, result);
      result := result + [node];
      GreedyFits(forward, result);
    }
    EmptyHeapMeansStuck(heap.items, Available(forward, Elements(result)));
    StuckMeansCycle(forward, result);
    if |result| != |g.nodes.Keys| {
      return CycleDetected;
    }
    GreedyIsLeast(forward, result);
    r := Sorted(result);
  }

  lemma DependentsWait(g: Graph, h: Graph, done: set<string>, node: string)
    requires Mirror(g, h) && g.nodes == h.nodes && node !in done
    ensures forall n | n in Succ(h, node) :: n in g.nodes && CountOutside(Succ(g, n), done) >= 1
    ensures Distinct(Succ(h, node))
  {
    forall n | n in Succ(h, node) ensures n in g.nodes && CountOutside(Succ(g, n), done) >= 1 {
      assert Edge(h, node, n);
      assert Edge(g, n, node);
      NoneOutside(Succ(g, n), done);
    }
  }
}
