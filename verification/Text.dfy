/**
 White space and substring search, as the string functions of the Go library define them.
 */
module Text {

  /** Characters with the Unicode property White_Space. */
  predicate IsSpace(c: char) {
    '\t' <= c <= '\r' || c == ' ' || c == '\U{0085}' || c == '\U{00A0}' || c == '\U{1680}'
    || '\U{2000}' <= c <= '\U{200A}' || c == '\U{2028}' || c == '\U{2029}' || c == '\U{202F}'
    || c == '\U{205F}' || c == '\U{3000}'
  }

  function TrimSpaceRight(s: string): (r: string)
    ensures r <= s && (r == "" || !IsSpace(r[|r| - 1])) && forall i | |r| <= i < |s| :: IsSpace(s[i])
    ensures s == "" || !IsSpace(s[|s| - 1]) ==> r == s
    ensures s != "" && !IsSpace(s[0]) ==> r != "" && r[0] == s[0]
  {
    if s != "" && IsSpace(s[|s| - 1]) then TrimSpaceRight(s[..|s| - 1]) else s
  }

  function TrimSpaceLeft(s: string): (r: string)
    ensures |r| <= |s| && r == s[|s| - |r|..] && (r == "" || !IsSpace(r[0]))
    ensures forall i | 0 <= i < |s| - |r| :: IsSpace(s[i])
    ensures s == "" || !IsSpace(s[0]) ==> r == s
  {
    if s != "" && IsSpace(s[0]) then TrimSpaceLeft(s[1..]) else s
  }

  function TrimSpace(s: string): (r: string)
    ensures r == "" || (!IsSpace(r[0]) && !IsSpace(r[|r| - 1]))
  {
    TrimSpaceRight(TrimSpaceLeft(s))
  }

  /** The 25 code points that are white space. */
  lemma IsSpaceMeans(c: char)
    ensures IsSpace(c) <==>
            c in {'\t', '\n', '\U{000B}', '\U{000C}', '\r', ' ', '\U{0085}', '\U{00A0}', '\U{1680}', '\U{2000}',
                  '\U{2001}', '\U{2002}', '\U{2003}', '\U{2004}', '\U{2005}', '\U{2006}', '\U{2007}', '\U{2008}',
                  '\U{2009}', '\U{200A}', '\U{2028}', '\U{2029}', '\U{202F}', '\U{205F}', '\U{3000}'}
  {
  }

  ghost predicate OnlySpace(s: string) {
    forall i | 0 <= i < |s| :: IsSpace(s[i])
  }

  /** s is white space, then the trimmed text, then white space; the trimmed text begins and ends in none. */
  lemma TrimSpaceMeans(s: string) returns (left: string, right: string)
    ensures s == left + TrimSpace(s) + right && OnlySpace(left) && OnlySpace(right)
    ensures var r := TrimSpace(s); r == "" || (!IsSpace(r[0]) && !IsSpace(r[|r| - 1]))
  {
    hide TrimSpaceLeft, TrimSpaceRight, OnlySpace, IsSpace;
    left := TrimmedLeft(s);
    right := TrimmedRight(TrimSpaceLeft(s));
    assert left + TrimSpace(s) + right == left + (TrimSpace(s) + right);
  }

  lemma TrimmedLeft(s: string) returns (left: string)
    ensures s == left + TrimSpaceLeft(s) && OnlySpace(left)
  {
    hide IsSpace;
    left := s[..|s| - |TrimSpaceLeft(s)|];
  }

  lemma TrimmedRight(s: string) returns (right: string)
    ensures s == TrimSpaceRight(s) + right && OnlySpace(right)
  {
    hide IsSpace;
    right := s[|TrimSpaceRight(s)|..];
  }

  lemma TrimSpaceIdempotent(s: string)
    ensures TrimSpace(TrimSpace(s)) == TrimSpace(s)
  {
  }

  predicate At(s: string, sub: string, i: int) {
    0 <= i && i + |sub| <= |s| && s[i..i + |sub|] == sub
  }

  ghost predicate Contains(s: string, sub: string) {
    exists i :: At(s, sub, i)
  }

  /** The first occurrence of sub at or after i, or -1. */
  function IndexFrom(s: string, sub: string, i: nat): (r: int)
    ensures r == -1 || (i <= r && At(s, sub, r))
    ensures forall k | i <= k && At(s, sub, k) :: 0 <= r <= k
    decreases |s| - i
  {
    if i + |sub| > |s| then -1
    else if At(s, sub, i) then i
    else IndexFrom(s, sub, i + 1)
  }

  function Index(s: string, sub: string): (r: int)
    ensures r == -1 <==> !Contains(s, sub)
    ensures r != -1 ==> 0 <= r && r + |sub| <= |s|
    ensures r != -1 ==> At(s, sub, r) && forall k | 0 <= k < r :: !At(s, sub, k)
  {
    IndexFrom(s, sub, 0)
  }

  lemma CharAt(s: string, sub: string, i: int, j: nat)
    requires At(s, sub, i) && j < |sub|
    ensures s[i + j] == sub[j]
  {
    assert s[i..i + |sub|][j] == s[i + j];
  }

  lemma NotAt(s: string, sub: string, i: nat, j: nat)
    requires j < |sub| && i + j < |s| && s[i + j] != sub[j]
    ensures !At(s, sub, i)
  {
    if At(s, sub, i) {
      CharAt(s, sub, i, j);
    }
  }

  lemma AtInPrefix(s: string, n: nat, sub: string, i: int)
    requires n <= |s| && At(s[..n], sub, i)
    ensures At(s, sub, i)
  {
    assert s[i..i + |sub|] == s[..n][i..i + |sub|];
  }

  lemma IndexIs(s: string, sub: string, i: nat)
    requires At(s, sub, i) && forall k | 0 <= k < i :: !At(s, sub, k)
    ensures Index(s, sub) == i
  {
  }

  lemma PartContains(whole: string, i: nat, j: nat, sub: string)
    requires i <= j <= |whole| && Contains(whole[i..j], sub)
    ensures Contains(whole, sub)
  {
    var k :| At(whole[i..j], sub, k);
    var here, there := whole[i..j][k..k + |sub|], whole[i + k..i + k + |sub|];
    assert forall x | 0 <= x < |sub| :: here[x] == there[x];
    assert here == there;
    assert At(whole, sub, i + k);
  }
}
