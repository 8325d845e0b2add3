/**
 The order in which the program compares and sorts strings. Go compares strings byte by byte;
 on UTF-8 text this is the order of code points, which is the order of Dafny's characters.
 */
module StringOrder {
  import opened Digraph

  predicate Less(a: string, b: string) {
    b != [] && (a == [] || a[0] < b[0] || (a[0] == b[0] && Less(a[1..], b[1..])))
  }

  predicate AtMost(a: string, b: string) {
    !Less(b, a)
  }

  lemma {:induction false} LessIrreflexive(a: string)
    ensures !Less(a, a)
  {
    if a != [] {
      LessIrreflexive(a[1..]);
    }
  }

  lemma {:induction false} LessTransitive(a: string, b: string, c: string)
    requires Less(a, b) && Less(b, c)
    ensures Less(a, c)
  {
    if a != [] && a[0] == b[0] && b[0] == c[0] {
      LessTransitive(a[1..], b[1..], c[1..]);
    }
  }

  lemma {:induction false} LessTotal(a: string, b: string)
    ensures a == b || Less(a, b) || Less(b, a)
  {
    if a != [] && b != [] && a[0] == b[0] {
      LessTotal(a[1..], b[1..]);
      assert a == [a[0]] + a[1..] && b == [b[0]] + b[1..];
    }
  }

  lemma LessAsymmetric(a: string, b: string)
    requires Less(a, b)
    ensures !Less(b, a)
  {
    if Less(b, a) {
      LessTransitive(a, b, a);
      LessIrreflexive(a);
    }
  }

  lemma AtMostTransitive(a: string, b: string, c: string)
    requires AtMost(a, b) && AtMost(b, c)
    ensures AtMost(a, c)
  {
    LessTotal(a, b);
    LessTotal(b, c);
    if Less(c, a) {
      if a == b || b == c {
      } else {
        LessTransitive(c, a, b);
        LessAsymmetric(b, c);
      }
    }
  }

  /** The first place where a and b differ has the smaller character in a. */
  ghost predicate SmallerAt(a: string, b: string, k: int) {
    0 <= k < |a| && k < |b| && a[..k] == b[..k] && a[k] < b[k]
  }

  /** a comes before b exactly when it is a proper prefix of b or is smaller where they first differ. */
  lemma {:induction false} LessMeans(a: string, b: string)
    ensures Less(a, b) <==> a < b || exists k :: SmallerAt(a, b, k)
  {
    if a != [] && b != [] && a[0] == b[0] {
      LessMeans(a[1..], b[1..]);
      assert a == [a[0]] + a[1..] && b == [b[0]] + b[1..];
      if k :| SmallerAt(a[1..], b[1..], k) {
        assert a[..k + 1] == [a[0]] + a[1..][..k] && b[..k + 1] == [b[0]] + b[1..][..k];
        assert SmallerAt(a, b, k + 1);
      }
      if k :| SmallerAt(a, b, k) {
        assert a[1..][..k - 1] == a[..k][1..] && b[1..][..k - 1] == b[..k][1..];
        assert SmallerAt(a[1..], b[1..], k - 1);
      }
    } else if a != [] && b != [] {
      if a[0] < b[0] {
        assert SmallerAt(a, b, 0);
      }
      if k :| SmallerAt(a, b, k) {
        assert k == 0 || a[..k][0] == b[..k][0];
      }
    }
  }

  /** Strictly ascending, hence also free of repetitions. */
  ghost predicate Ascending(s: seq<string>) {
    forall i, j | 0 <= i < j < |s| :: Less(s[i], s[j])
  }

  lemma AscendingDistinct(s: seq<string>)
    requires Ascending(s)
    ensures Distinct(s)
  {
    forall i, j | 0 <= i < j < |s| ensures s[i] != s[j] {
      LessIrreflexive(s[i]);
    }
  }

  /** A set has only one ascending listing: the order of insertion cannot show. */
  lemma {:induction false} AscendingUnique(a: seq<string>, b: seq<string>)
    requires Ascending(a) && Ascending(b) && Elements(a) == Elements(b)
    ensures a == b
  {
    AscendingDistinct(a);
    AscendingDistinct(b);
    DistinctCount(a);
    DistinctCount(b);
    if a != b {
      var k :| 0 <= k < |a| && a[..k] == b[..k] && a[k] != b[k] by { FirstDifference(a, b); }
      SmallerMissing(a, b, k);
      SmallerMissing(b, a, k);
      LessTotal(a[k], b[k]);
    }
  }

  lemma {:induction false} FirstDifference(a: seq<string>, b: seq<string>)
    requires |a| == |b| && a != b
    ensures exists k :: 0 <= k < |a| && a[..k] == b[..k] && a[k] != b[k]
  {
    assert a[..|a|] == a && b[..|b|] == b;
    var k := 0;
    while k < |a| && a[k] == b[k]
      invariant 0 <= k <= |a| && a[..k] == b[..k]
    {
      k := k + 1;
    }
  }

  lemma SmallerMissing(a: seq<string>, b: seq<string>, k: nat)
    requires Ascending(a) && Ascending(b) && Elements(a) == Elements(b)
    requires k < |a| && k < |b| && a[..k] == b[..k] && a[k] != b[k]
    ensures !Less(a[k], b[k])
  {
    if Less(a[k], b[k]) {
      assert a[k] in Elements(b);
      var m :| 0 <= m < |b| && b[m] == a[k];
      if m < k {
        assert a[..k][m] == b[..k][m];
        LessIrreflexive(a[k]);
      } else {
        LessAsymmetric(b[k], b[m]);
      }
    }
  }

  /** Insertion keeps the listing ascending and adds exactly x. */
  function {:induction false} InsertAscending(s: seq<string>, x: string): (r: seq<string>)
    requires Ascending(s) && x !in s
    ensures Ascending(r) && Elements(r) == Elements(s) + {x}
  {
    if s == [] || Less(x, s[0]) then
      InsertedFirst(s, x);
      [x] + s
    else
      var r := InsertAscending(s[1..], x);
      InsertedLater(s, r, x);
      [s[0]] + r
  }

  lemma InsertedFirst(s: seq<string>, x: string)
    requires Ascending(s) && (s == [] || Less(x, s[0]))
    ensures Ascending([x] + s) && Elements([x] + s) == Elements(s) + {x}
  {
    var r := [x] + s;
    forall i, j | 0 <= i < j < |r| ensures Less(r[i], r[j]) {
      if i == 0 && j > 1 {
        LessTransitive(x, s[0], s[j - 1]);
      }
    }
  }

  lemma InsertedLater(s: seq<string>, r: seq<string>, x: string)
    requires s != [] && Ascending(s) && x !in s && !Less(x, s[0])
    requires Ascending(r) && Elements(r) == Elements(s[1..]) + {x}
    ensures Ascending([s[0]] + r) && Elements([s[0]] + r) == Elements(s) + {x}
  {
    LessTotal(x, s[0]);
    var t := [s[0]] + r;
    forall i, j | 0 <= i < j < |t| ensures Less(t[i], t[j]) {
      if i == 0 {
        assert r[j - 1] in Elements(r);
      }
    }
    assert s == [s[0]] + s[1..];
  }

  function {:induction false} SortStrings(s: seq<string>): (r: seq<string>)
    requires Distinct(s)
    ensures Ascending(r) && Elements(r) == Elements(s)
  {
    if s == [] then
      []
    else
      var last := |s| - 1;
      assert s == s[..last] + [s[last]];
      assert s[last] !in s[..last];
      var r := SortStrings(s[..last]);
      assert s[last] !in Elements(r);
      ElementsSnoc(s[..last], s[last]);
      InsertAscending(r, s[last])
  }

  /** The keys of a map used as a set, collected in any order and then sorted. */
  method SortedKeys(keys: set<string>) returns (r: seq<string>)
    ensures Ascending(r) && Elements(r) == keys
  {
    r := [];
    var rest := keys;
    while rest != {}
      invariant rest <= keys
      invariant Distinct(r) && Elements(r) == keys - rest
      decreases rest
    {
      var k :| k in rest;
      assert k !in Elements(r);
      ElementsSnoc(r, k);
      r := r + [k];
      rest := rest - {k};
    }
    r := SortStrings(r);
  }
}
