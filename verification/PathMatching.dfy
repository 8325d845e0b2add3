/**
 Slash-separated globs in which a whole segment `**` absorbs any number of path segments. How one
 ordinary pattern segment matches one path segment is a parameter, as is which segments are
 malformed.
 */
module PathMatching {
  import opened Options
  import opened WorkspacePaths
  import opened Text

  type Matcher = (string, string) -> bool

  const ANY_SEGMENTS := "**"

  // ------------------------------------------------------------ the meaning of a pattern

  /** Piece i of the pattern covers the path from cuts[i] to cuts[i + 1]. */
  ghost predicate Covers(m: Matcher, p: seq<string>, s: seq<string>, cuts: seq<nat>, i: int)
    requires |cuts| == |p| + 1 && 0 <= i < |p|
  {
    && cuts[i] <= cuts[i + 1] <= |s|
    && (p[i] != ANY_SEGMENTS ==> cuts[i + 1] == cuts[i] + 1 && m(p[i], s[cuts[i]]))
  }

  ghost predicate Fits(m: Matcher, p: seq<string>, s: seq<string>, cuts: seq<nat>) {
    && |cuts| == |p| + 1 && cuts[0] == 0 && cuts[|p|] == |s|
    && forall i | 0 <= i < |p| :: Covers(m, p, s, cuts, i)
  }

  /** The path can be cut into consecutive stretches, one per pattern segment, each covered by it. */
  ghost predicate Matches(m: Matcher, p: seq<string>, s: seq<string>) {
    exists cuts :: Fits(m, p, s, cuts)
  }

  lemma {:induction false} CutsGrow(m: Matcher, p: seq<string>, s: seq<string>, cuts: seq<nat>, i: nat, j: nat)
    requires Fits(m, p, s, cuts) && i <= j <= |p|
    ensures cuts[i] <= cuts[j] <= |s|
    decreases j - i
  {
    if i < j {
      CutsGrow(m, p, s, cuts, i, j - 1);
      assert Covers(m, p, s, cuts, j - 1);
    } else if j < |p| {
      assert Covers(m, p, s, cuts, j);
    }
  }

  lemma FitsFirst(m: Matcher, p: seq<string>, q: seq<string>, s: seq<string>, cuts: seq<nat>)
    requires Fits(m, p + q, s, cuts)
    ensures cuts[|p|] <= |s| && Matches(m, p, s[..cuts[|p|]])
  {
    CutsGrow(m, p + q, s, cuts, |p|, |p|);
    var first := cuts[..|p| + 1];
    forall i | 0 <= i < |p| ensures Covers(m, p, s[..cuts[|p|]], first, i) {
      assert Covers(m, p + q, s, cuts, i);
      CutsGrow(m, p + q, s, cuts, i + 1, |p|);
    }
    assert Fits(m, p, s[..cuts[|p|]], first);
  }

  lemma FitsSecond(m: Matcher, p: seq<string>, q: seq<string>, s: seq<string>, cuts: seq<nat>)
    requires Fits(m, p + q, s, cuts)
    ensures cuts[|p|] <= |s| && Matches(m, q, s[cuts[|p|]..])
  {
    CutsGrow(m, p + q, s, cuts, |p|, |p|);
    var at := cuts[|p|];
    forall i | |p| <= i <= |p| + |q| ensures cuts[i] >= at {
      CutsGrow(m, p + q, s, cuts, |p|, i);
    }
    var second: seq<nat> := seq(|q| + 1, i requires 0 <= i <= |q| => cuts[|p| + i] - at);
    forall i | 0 <= i < |q| ensures Covers(m, q, s[at..], second, i) {
      assert Covers(m, p + q, s, cuts, |p| + i);
    }
    assert Fits(m, q, s[at..], second);
  }

  lemma FitsJoined(m: Matcher, p: seq<string>, q: seq<string>, s: seq<string>, k: nat)
    requires k <= |s| && Matches(m, p, s[..k]) && Matches(m, q, s[k..])
    ensures Matches(m, p + q, s)
  {
    var first :| Fits(m, p, s[..k], first);
    var second :| Fits(m, q, s[k..], second);
    var cuts: seq<nat> := first + seq(|q|, i requires 0 <= i < |q| => second[i + 1] + k);
    forall i | 0 <= i < |p + q| ensures Covers(m, p + q, s, cuts, i) {
      if i < |p| {
        assert Covers(m, p, s[..k], first, i);
      } else {
        assert Covers(m, q, s[k..], second, i - |p|);
      }
    }
    assert Fits(m, p + q, s, cuts);
  }

  /** A concatenated pattern matches exactly the paths that split into a match of each part. */
  lemma MatchesConcat(m: Matcher, p: seq<string>, q: seq<string>, s: seq<string>)
    ensures Matches(m, p + q, s) <==> exists k :: 0 <= k <= |s| && Matches(m, p, s[..k]) && Matches(m, q, s[k..])
  {
    if Matches(m, p + q, s) {
      var cuts :| Fits(m, p + q, s, cuts);
      FitsFirst(m, p, q, s, cuts);
      FitsSecond(m, p, q, s, cuts);
    }
    if k :| 0 <= k <= |s| && Matches(m, p, s[..k]) && Matches(m, q, s[k..]) {
      FitsJoined(m, p, q, s, k);
    }
  }

  lemma MatchesEmpty(m: Matcher, s: seq<string>)
    ensures Matches(m, [], s) <==> s == []
  {
    if s == [] {
      assert Fits(m, [], s, [0]);
    }
  }

  lemma MatchesOne(m: Matcher, x: string, s: seq<string>)
    ensures Matches(m, [x], s) <==> x == ANY_SEGMENTS || (|s| == 1 && m(x, s[0]))
  {
    if x == ANY_SEGMENTS || (|s| == 1 && m(x, s[0])) {
      assert Covers(m, [x], s, [0, |s|], 0);
      assert Fits(m, [x], s, [0, |s|]);
    }
    if Matches(m, [x], s) {
      var cuts :| Fits(m, [x], s, cuts);
      assert Covers(m, [x], s, cuts, 0);
    }
  }

  /** A leading ordinary segment takes exactly the first path segment. */
  lemma MatchesSegment(m: Matcher, p: seq<string>, s: seq<string>)
    requires p != [] && p[0] != ANY_SEGMENTS
    ensures Matches(m, p, s) <==> s != [] && m(p[0], s[0]) && Matches(m, p[1..], s[1..])
  {
    assert p == [p[0]] + p[1..];
    MatchesConcat(m, [p[0]], p[1..], s);
    forall k | 0 <= k <= |s| ensures Matches(m, [p[0]], s[..k]) <==> k == 1 && m(p[0], s[0]) {
      MatchesOne(m, p[0], s[..k]);
    }
  }

  /** A leading `**` takes any number of path segments. */
  lemma MatchesAny(m: Matcher, p: seq<string>, s: seq<string>)
    requires p != [] && p[0] == ANY_SEGMENTS
    ensures Matches(m, p, s) <==> exists k :: 0 <= k <= |s| && Matches(m, p[1..], s[k..])
  {
    assert p == [p[0]] + p[1..];
    MatchesConcat(m, [p[0]], p[1..], s);
    forall k | 0 <= k <= |s| ensures Matches(m, [p[0]], s[..k]) {
      MatchesOne(m, p[0], s[..k]);
    }
  }

  lemma DoubleAny(m: Matcher, p: seq<string>, s: seq<string>)
    requires |p| > 1 && p[0] == ANY_SEGMENTS && p[1] == ANY_SEGMENTS
    ensures Matches(m, p, s) <==> Matches(m, p[1..], s)
  {
    MatchesAny(m, p, s);
    MatchesAny(m, p[1..], s);
    if k :| 0 <= k <= |s| && Matches(m, p[1..], s[k..]) {
      MatchesAny(m, p[1..], s[k..]);
      var l :| 0 <= l <= |s[k..]| && Matches(m, p[1..][1..], s[k..][l..]);
      assert s[k..][l..] == s[k + l..];
    }
    if Matches(m, p[1..], s) {
      assert s[0..] == s;
    }
  }

  // ------------------------------------------------------------ collapsing runs

  /** The pattern with every run of `**` replaced by a single one. */
  function Collapsed(p: seq<string>): seq<string> {
    if p == [] then []
    else if |p| > 1 && p[0] == ANY_SEGMENTS && p[1] == ANY_SEGMENTS then Collapsed(p[1..])
    else [p[0]] + Collapsed(p[1..])
  }

  /** Collapsing changes nothing. */
  lemma {:induction false} CollapseKeepsMeaning(m: Matcher, p: seq<string>, s: seq<string>)
    ensures Matches(m, Collapsed(p), s) <==> Matches(m, p, s)
    decreases |p|
  {
    if p != [] {
      if |p| > 1 && p[0] == ANY_SEGMENTS && p[1] == ANY_SEGMENTS {
        DoubleAny(m, p, s);
        CollapseKeepsMeaning(m, p[1..], s);
      } else {
        var q := Collapsed(p);
        assert q[1..] == Collapsed(p[1..]);
        if p[0] == ANY_SEGMENTS {
          MatchesAny(m, p, s);
          MatchesAny(m, q, s);
          forall k | 0 <= k <= |s| ensures Matches(m, q[1..], s[k..]) <==> Matches(m, p[1..], s[k..]) {
            CollapseKeepsMeaning(m, p[1..], s[k..]);
          }
        } else {
          MatchesSegment(m, p, s);
          MatchesSegment(m, q, s);
          if s != [] {
            CollapseKeepsMeaning(m, p[1..], s[1..]);
          }
        }
      }
    }
  }

  // ------------------------------------------------------------ the matcher

  /** Decides the meaning above. */
  method MatchSegments(m: Matcher, pattern0: seq<string>, path: seq<string>) returns (matched: bool)
    ensures matched <==> Matches(m, pattern0, path)
    decreases |pattern0|
  {
    var pattern := pattern0;
    if |pattern| == 0 {
      MatchesEmpty(m, path);
      return |path| == 0;
    }
    if pattern[0] == ANY_SEGMENTS {
      while |pattern| > 1 && pattern[1] == ANY_SEGMENTS
        invariant 0 < |pattern| <= |pattern0| && pattern[0] == ANY_SEGMENTS
        invariant Matches(m, pattern, path) <==> Matches(m, pattern0, path)
        decreases |pattern|
      {
        DoubleAny(m, pattern, path);
        pattern := pattern[1..];
      }
      if |pattern| == 1 {
        MatchesOne(m, pattern[0], path);
        assert pattern == [pattern[0]];
        return true;
      }
      MatchesAny(m, pattern, path);
      for i := 0 to |path| + 1
        invariant forall k | 0 <= k < i :: !Matches(m, pattern[1..], path[k..])
      {
        var tail := MatchSegments(m, pattern[1..], path[i..]);
        if tail {
          return true;
        }
      }
      return false;
    }
    MatchesSegment(m, pattern, path);
    if |path| == 0 || !m(pattern[0], path[0]) {
      return false;
    }
    matched := MatchSegments(m, pattern[1..], path[1..]);
  }

  // ------------------------------------------------------------ whole patterns

  function SplitPath(value: string): seq<string> {
    var trimmed := TrimLeft(TrimRight(value));
    if trimmed == "" then [] else Segments(trimmed)
  }

  ghost predicate OnlySlashes(s: string) {
    forall c | c in s :: c == '/'
  }

  /**
   Splitting drops the outer slashes and cuts at every other: the segments hold no slash, joined again
   they are the text between the outer slashes, and there are none exactly when there is nothing else.
   */
  lemma SplitPathMeans(value: string)
    ensures forall segment | segment in SplitPath(value) :: '/' !in segment
    ensures SplitPath(value) == [] <==> OnlySlashes(value)
    ensures exists i, j | 0 <= i <= j <= |value| ::
              && value[i..j] == WithSlashes(SplitPath(value))
              && OnlySlashes(value[..i]) && OnlySlashes(value[j..])
              && (i == j || (value[i] != '/' && value[j - 1] != '/'))
  {
    var right := TrimRight(value);
    var trimmed := TrimLeft(right);
    var i, j := |right| - |trimmed|, |right|;
    SegmentsRejoined(trimmed);
    NoSlashInSegments(trimmed);
    hide TrimRight, TrimLeft, Segments;
    assert value[i..j] == trimmed;
    assert OnlySlashes(value[..i]) && OnlySlashes(value[j..]);
    assert i < j ==> value[i] == trimmed[0] && value[j - 1] == right[|right| - 1];
    assert trimmed == "" <==> OnlySlashes(value) by {
      SlashesAround(value, i, j);
    }
  }

  lemma SlashesAround(value: string, i: nat, j: nat)
    requires i <= j <= |value| && OnlySlashes(value[..i]) && OnlySlashes(value[j..])
    requires i < j ==> value[i] != '/'
    ensures i == j <==> OnlySlashes(value)
  {
    assert value == value[..i] + value[i..j] + value[j..];
    assert i < j ==> value[i] in value;
  }

  lemma NoSlashInSegments(s: string)
    ensures forall segment | segment in Segments(s) :: '/' !in segment
  {
    forall segment | segment in Segments(s) ensures '/' !in segment {
      SegmentsArePieces(s, segment);
      var i, j :| Piece(s, i, j) && s[i..j] == segment;
      assert forall k | 0 <= k < |segment| :: segment[k] == s[i + k];
    }
  }

  predicate ContainsAny(segment: string) {
    exists i | 0 <= i < |segment| - 1 :: segment[i] == '*' && segment[i + 1] == '*'
  }

  predicate SegmentOk(wellFormed: string -> bool, segment: string) {
    segment == ANY_SEGMENTS || (!ContainsAny(segment) && wellFormed(segment))
  }

  /** The segment has `**` somewhere. */
  lemma ContainsAnyMeans(segment: string)
    ensures ContainsAny(segment) <==> Contains(segment, ANY_SEGMENTS)
  {
    if ContainsAny(segment) {
      var i :| 0 <= i < |segment| - 1 && segment[i] == '*' && segment[i + 1] == '*';
      assert segment[i..i + 2] == [segment[i], segment[i + 1]];
      assert At(segment, ANY_SEGMENTS, i);
    }
    if i :| At(segment, ANY_SEGMENTS, i) {
      CharAt(segment, ANY_SEGMENTS, i, 0);
      CharAt(segment, ANY_SEGMENTS, i, 1);
    }
  }

  /** A segment that matches one path segment in its own way. */
  predicate Ordinary(wellFormed: string -> bool, segment: string) {
    segment != "" && '/' !in segment && segment != ANY_SEGMENTS && SegmentOk(wellFormed, segment)
  }

  lemma NothingToTrim(value: string)
    requires value != "" && value[0] != '/' && value[|value| - 1] != '/'
    ensures SplitPath(value) == Segments(value)
  {
    hide Segments;
  }

  lemma SplitAnyThen(s: string)
    requires s != "" && '/' !in s
    ensures SplitPath("**/" + s) == [ANY_SEGMENTS, s]
  {
    hide Segments, TrimLeft, TrimRight;
    var pattern := "**/" + s;
    assert pattern[|pattern| - 1] == s[|s| - 1] && pattern[0] == '*';
    NothingToTrim(pattern);
    assert pattern == ANY_SEGMENTS + "/" + s;
    SegmentsConcat(ANY_SEGMENTS, s);
    NoSlashOneSegment(ANY_SEGMENTS);
    NoSlashOneSegment(s);
    assert [ANY_SEGMENTS] + [s] == [ANY_SEGMENTS, s];
  }

  /** `**` and a segment match the paths whose last segment the segment matches. */
  lemma AnyThenSegment(m: Matcher, s: string, path: seq<string>)
    requires s != ANY_SEGMENTS
    ensures Matches(m, [ANY_SEGMENTS, s], path) <==> path != [] && m(s, path[|path| - 1])
  {
    var p := [ANY_SEGMENTS, s];
    assert p[1..] == [s];
    MatchesAny(m, p, path);
    forall k | 0 <= k <= |path|
      ensures Matches(m, [s], path[k..]) <==> k == |path| - 1 && m(s, path[k])
    {
      MatchesOne(m, s, path[k..]);
    }
    if path != [] && m(s, path[|path| - 1]) {
      assert Matches(m, [s], path[|path| - 1..]);
    }
  }

  lemma AnyThenMeans(wellFormed: string -> bool, m: Matcher, pattern: string, path: seq<string>)
    requires |pattern| > 3 && pattern[..3] == "**/" && Ordinary(wellFormed, pattern[3..])
    ensures forall segment | segment in SplitPath(pattern) :: SegmentOk(wellFormed, segment)
    ensures Matches(m, SplitPath(pattern), path) <==> path != [] && m(pattern[3..], path[|path| - 1])
  {
    hide SplitPath, Matches, ContainsAny;
    assert pattern == "**/" + pattern[3..];
    SplitAnyThen(pattern[3..]);
    AnyThenSegment(m, pattern[3..], path);
  }

  method ValidateGlob(wellFormed: string -> bool, pattern: string) returns (ok: bool)
    ensures ok <==> forall segment | segment in SplitPath(pattern) :: SegmentOk(wellFormed, segment)
  {
    var segments := SplitPath(pattern);
    for i := 0 to |segments|
      invariant forall segment | segment in segments[..i] :: SegmentOk(wellFormed, segment)
    {
      assert segments[..i + 1] == segments[..i] + [segments[i]];
      if segments[i] == ANY_SEGMENTS {
        continue;
      }
      if ContainsAny(segments[i]) || !wellFormed(segments[i]) {
        assert segments[i] in segments && !SegmentOk(wellFormed, segments[i]);
        return false;
      }
    }
    assert segments[..|segments|] == segments;
    return true;
  }

  /** Reports malformed patterns instead of treating them as not matching. */
  method MatchGlob(wellFormed: string -> bool, m: Matcher, pattern: string, path: string) returns (r: Option<bool>)
    ensures r.Some? <==> forall segment | segment in SplitPath(pattern) :: SegmentOk(wellFormed, segment)
    ensures r.Some? ==> (r.value <==> Matches(m, SplitPath(pattern), SplitPath(path)))
    ensures |pattern| > 3 && pattern[..3] == "**/" && Ordinary(wellFormed, pattern[3..]) ==>
              var segments := SplitPath(path);
              r == Some(segments != [] && m(pattern[3..], segments[|segments| - 1]))
  {
    hide SplitPath, Matches;
    if |pattern| > 3 && pattern[..3] == "**/" && Ordinary(wellFormed, pattern[3..]) {
      AnyThenMeans(wellFormed, m, pattern, SplitPath(path));
    }
    var ok := ValidateGlob(wellFormed, pattern);
    if !ok {
      return None;
    }
    var matched := MatchSegments(m, SplitPath(pattern), SplitPath(path));
    r := Some(matched);
  }
}
