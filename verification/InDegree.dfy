/**
 Counting how many entries of a dependency list are still outstanding, as both Kahn-style
 algorithms do when they lower an in-degree for every released dependency.
 */
module InDegree {
  import opened Digraph

  /** The number of entries, with repetitions, that lie outside done. */
  function CountOutside(s: seq<string>, done: set<string>): nat {
    if s == [] then 0
    else CountOutside(s[..|s| - 1], done) + if s[|s| - 1] in done then 0 else 1
  }

  lemma {:induction false} NoneOutside(s: seq<string>, done: set<string>)
    ensures CountOutside(s, done) == 0 <==> forall x | x in s :: x in done
  {
    if s != [] {
      NoneOutside(s[..|s| - 1], done);
      assert s == s[..|s| - 1] + [s[|s| - 1]];
    }
  }

  lemma {:induction false} AllOutside(s: seq<string>)
    ensures CountOutside(s, {}) == |s|
  {
    if s != [] {
      AllOutside(s[..|s| - 1]);
    }
  }

  /** Releasing x takes away as many as x has entries. */
  lemma {:induction false} CountAfterRelease(s: seq<string>, done: set<string>, x: string)
    requires x !in done
    ensures CountOutside(s, done + {x}) + multiset(s)[x] == CountOutside(s, done)
  {
    if s != [] {
      CountAfterRelease(s[..|s| - 1], done, x);
      assert s == s[..|s| - 1] + [s[|s| - 1]];
    }
  }

  lemma {:induction false} DistinctMultiplicity(s: seq<string>, x: string)
    requires Distinct(s)
    ensures multiset(s)[x] == if x in s then 1 else 0
  {
    if s != [] {
      var t := s[..|s| - 1];
      DistinctMultiplicity(t, x);
      assert s == t + [s[|s| - 1]];
      assert s[|s| - 1] !in t;
    }
  }
}
