/**
 The min-heap of strings that the topological sort draws from: a binary heap laid out in one
 list, with the sift-up and sift-down of Go's container/heap.
 */
module StringHeap {
  import opened StringOrder

  function Parent(k: nat): (r: nat)
    requires k > 0
    ensures r < k
  {
    (k - 1) / 2
  }

  function Swapped(s: seq<string>, i: nat, j: nat): (r: seq<string>)
    requires i < |s| && j < |s|
    ensures |r| == |s| && r[i] == s[j] && r[j] == s[i]
    ensures forall k | 0 <= k < |s| && k != i && k != j :: r[k] == s[k]
    ensures multiset(r) == multiset(s)
  {
    s[i := s[j]][j := s[i]]
  }

  /** Every entry up to n is at least its parent, the one at hole excepted. */
  ghost predicate OrderedBut(s: seq<string>, n: nat, hole: nat) {
    && n <= |s|
    && (forall k: nat {:trigger Parent(k)} | 0 < k < n && k != hole :: AtMost(s[Parent(k)], s[k]))
    && (forall k: nat {:trigger Parent(k)} | 0 < k < n && 0 < hole < n && Parent(k) == hole ::
          AtMost(s[Parent(hole)], s[k]))
  }

  /** Every entry up to n is at least its parent, the children of the one at hole excepted. */
  ghost predicate OrderedBelow(s: seq<string>, n: nat, hole: nat) {
    && n <= |s|
    && (forall k: nat {:trigger Parent(k)} | 0 < k < n && Parent(k) != hole :: AtMost(s[Parent(k)], s[k]))
    && (forall k: nat {:trigger Parent(k)} | 0 < k < n && 0 < hole < n && Parent(k) == hole ::
          AtMost(s[Parent(hole)], s[k]))
  }

  ghost predicate HeapOrdered(s: seq<string>) {
    forall k: nat {:trigger Parent(k)} | 0 < k < |s| :: AtMost(s[Parent(k)], s[k])
  }

  lemma {:induction false} RootIsLeast(s: seq<string>, k: nat)
    requires HeapOrdered(s) && k < |s|
    ensures AtMost(s[0], s[k])
  {
    if k == 0 {
      LessIrreflexive(s[0]);
    } else {
      RootIsLeast(s, Parent(k));
      AtMostTransitive(s[0], s[Parent(k)], s[k]);
    }
  }

  lemma SwapUpKeepsOrder(s: seq<string>, j: nat)
    requires 0 < j < |s| && OrderedBut(s, |s|, j) && Less(s[j], s[Parent(j)])
    ensures OrderedBut(Swapped(s, Parent(j), j), |s|, Parent(j))
  {
    var i := Parent(j);
    var r := Swapped(s, i, j);
    LessAsymmetric(s[j], s[i]);
    forall k: nat {:trigger Parent(k)} | 0 < k < |r| && k != i
      ensures AtMost(r[Parent(k)], r[k])
    {
      if k != j && Parent(k) == i {
        AtMostTransitive(s[j], s[i], s[k]);
      }
    }
    forall k: nat {:trigger Parent(k)} | 0 < k < |r| && 0 < i && Parent(k) == i
      ensures AtMost(r[Parent(i)], r[k])
    {
      if k != j {
        AtMostTransitive(s[Parent(i)], s[i], s[k]);
      }
    }
  }

  lemma SwapDownKeepsOrder(s: seq<string>, n: nat, i: nat, j: nat)
    requires 0 < j < n <= |s| && i == Parent(j) && OrderedBelow(s, n, i) && Less(s[j], s[i])
    requires forall k: nat {:trigger Parent(k)} | 0 < k < n && Parent(k) == i :: AtMost(s[j], s[k])
    ensures OrderedBelow(Swapped(s, i, j), n, j)
  {
    var r := Swapped(s, i, j);
    LessAsymmetric(s[j], s[i]);
    forall k: nat {:trigger Parent(k)} | 0 < k < n && Parent(k) != j
      ensures AtMost(r[Parent(k)], r[k])
    {
      if k == i {
        assert Parent(j) == i;
      }
    }
  }

  class StringHeap {
    var items: seq<string>

    constructor ()
      ensures items == []
    {
      items := [];
    }

    method Swap(i: nat, j: nat)
      requires i < |items| && j < |items|
      modifies this
      ensures items == Swapped(old(items), i, j)
    {
      items := Swapped(items, i, j);
    }

    /** Sift the entry at j0 towards the root. */
    method Up(j0: nat)
      requires j0 < |items| && OrderedBut(items, |items|, j0)
      modifies this
      ensures HeapOrdered(items) && multiset(items) == multiset(old(items))
    {
      var j: nat := j0;
      while j > 0 && Less(items[j], items[Parent(j)])
        invariant j < |items| && OrderedBut(items, |items|, j)
        invariant multiset(items) == multiset(old(items))
      {
        SwapUpKeepsOrder(items, j);
        var i := Parent(j);
        Swap(i, j);
        j := i;
      }
    }

    /** Sift the entry at the root down among the first n. */
    method Down(n: nat)
      requires n <= |items| && OrderedBelow(items, n, 0)
      modifies this
      ensures |items| == |old(items)| && HeapOrdered(items[..n])
      ensures items[n..] == old(items)[n..] && multiset(items) == multiset(old(items))
    {
      hide OrderedBelow, HeapOrdered, Less;
      var i := 0;
      while 2 * i + 1 < n
        invariant OrderedBelow(items, n, i) && |items| == |old(items)|
        invariant items[n..] == old(items)[n..] && multiset(items) == multiset(old(items))
        decreases n - i
      {
        var j := 2 * i + 1;
        var right := j + 1;
        if right < n && Less(items[right], items[j]) {
          j := right;
        }
        assert Parent(j) == i;
        if !Less(items[j], items[i]) {
          ChildrenInOrder(items, n, i, j);
          return;
        }
        LeastChild(items, n, i, j);
        SwapDownKeepsOrder(items, n, i, j);
        Swap(i, j);
        i := j;
      }
      NoChildren(items, n, i);
    }

    method Push(x: string)
      requires HeapOrdered(items)
      modifies this
      ensures HeapOrdered(items) && multiset(items) == multiset(old(items)) + multiset{x}
    {
      items := items + [x];
      Up(|items| - 1);
    }

    /** Take out an entry that is at most every entry held. */
    method Pop() returns (x: string)
      requires HeapOrdered(items) && items != []
      modifies this
      ensures HeapOrdered(items) && multiset(old(items)) == multiset(items) + multiset{x}
      ensures forall y | y in old(items) :: AtMost(x, y)
    {
      forall k | 0 <= k < |items| ensures AtMost(items[0], items[k]) {
        RootIsLeast(items, k);
      }
      var n := |items| - 1;
      Swap(0, n);
      Down(n);
      x := items[n];
      assert items[n..][0] == x;
      assert items == items[..n] + [x];
      items := items[..n];
    }
  }

  lemma LeastChild(s: seq<string>, n: nat, i: nat, j: nat)
    requires 2 * i + 1 < n <= |s|
    requires j == if 2 * i + 2 < n && Less(s[2 * i + 2], s[2 * i + 1]) then 2 * i + 2 else 2 * i + 1
    ensures forall k: nat {:trigger Parent(k)} | 0 < k < n && Parent(k) == i :: AtMost(s[j], s[k])
  {
    LessIrreflexive(s[j]);
    forall k: nat {:trigger Parent(k)} | 0 < k < n && Parent(k) == i ensures AtMost(s[j], s[k]) {
      assert k == 2 * i + 1 || k == 2 * i + 2;
      if j == 2 * i + 2 {
        LessAsymmetric(s[2 * i + 2], s[2 * i + 1]);
      }
    }
  }

  lemma NoChildren(s: seq<string>, n: nat, i: nat)
    requires OrderedBelow(s, n, i) && 2 * i + 1 >= n
    ensures HeapOrdered(s[..n])
  {
  }

  lemma ChildrenInOrder(s: seq<string>, n: nat, i: nat, j: nat)
    requires 2 * i + 1 < n <= |s| && OrderedBelow(s, n, i)
    requires j == if 2 * i + 2 < n && Less(s[2 * i + 2], s[2 * i + 1]) then 2 * i + 2 else 2 * i + 1
    requires AtMost(s[i], s[j])
    ensures HeapOrdered(s[..n])
  {
    LeastChild(s, n, i, j);
    forall k: nat {:trigger Parent(k)} | 0 < k < n ensures AtMost(s[Parent(k)], s[k]) {
      if Parent(k) == i {
        AtMostTransitive(s[i], s[j], s[k]);
      }
    }
  }
}
