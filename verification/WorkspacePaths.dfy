/**
 Workspace-relative paths: joining components with forward slashes and rejecting paths that are
 empty, absolute, drive-prefixed or that step to a parent directory.
 */
module WorkspacePaths {

  function Slashed(s: string): (r: string)
    ensures |r| == |s| && '\\' !in r
    ensures forall i | 0 <= i < |s| :: r[i] == if s[i] == '\\' then '/' else s[i]
    ensures '\\' !in s ==> r == s
  {
    seq(|s|, i requires 0 <= i < |s| => if s[i] == '\\' then '/' else s[i])
  }

  function TrimRight(s: string): (r: string)
    ensures r <= s && (r == "" || r[|r| - 1] != '/') && forall i | |r| <= i < |s| :: s[i] == '/'
    ensures s == "" || s[|s| - 1] != '/' ==> r == s
  {
    if s != "" && s[|s| - 1] == '/' then TrimRight(s[..|s| - 1]) else s
  }

  function TrimLeft(s: string): (r: string)
    ensures |r| <= |s| && r == s[|s| - |r|..] && (r == "" || r[0] != '/')
    ensures forall i | 0 <= i < |s| - |r| :: s[i] == '/'
    ensures s == "" || s[0] != '/' ==> r == s
  {
    if s != "" && s[0] == '/' then TrimLeft(s[1..]) else s
  }

  /** Free of backslashes and of a trailing slash. */
  predicate Normal(s: string) {
    '\\' !in s && (s == "" || s[|s| - 1] != '/')
  }

  /** The path so far with one more component; a component that is empty once trimmed adds nothing. */
  function JoinOnto(path: string, part: string): string {
    if path == "" then TrimRight(Slashed(part))
    else
      var trimmed := TrimLeft(TrimRight(Slashed(part)));
      if trimmed == "" then path else path + "/" + trimmed
  }

  function Joined(parts: seq<string>): string {
    if parts == [] then "" else JoinOnto(Joined(parts[..|parts| - 1]), parts[|parts| - 1])
  }

  function WithSlashes(pieces: seq<string>): string {
    if |pieces| == 0 then ""
    else if |pieces| == 1 then pieces[0]
    else WithSlashes(pieces[..|pieces| - 1]) + "/" + pieces[|pieces| - 1]
  }

  method Join(parts: seq<string>) returns (r: string)
    ensures r == Joined(parts)
  {
    hide Slashed, TrimRight, TrimLeft;
    var cleaned: seq<string> := [];
    for i := 0 to |parts|
      invariant WithSlashes(cleaned) == Joined(parts[..i])
      invariant (cleaned == [] <==> Joined(parts[..i]) == "") && forall c | c in cleaned :: c != ""
    {
      assert parts[..i + 1][..i] == parts[..i];
      if parts[i] == "" {
        continue;
      }
      var normalized := Slashed(parts[i]);
      if |cleaned| == 0 {
        normalized := TrimRight(normalized);
      } else {
        normalized := TrimLeft(TrimRight(normalized));
      }
      if normalized == "" {
        continue;
      }
      assert (cleaned + [normalized])[..|cleaned|] == cleaned;
      cleaned := cleaned + [normalized];
    }
    assert parts[..|parts|] == parts;
    r := WithSlashes(cleaned);
  }

  lemma TrimRightNormal(s: string)
    requires '\\' !in s
    ensures Normal(TrimRight(s))
  {
    assert forall c | c in TrimRight(s) :: c in s;
  }

  lemma TrimLeftNormal(s: string)
    requires Normal(s)
    ensures Normal(TrimLeft(s))
  {
    var r := TrimLeft(s);
    hide TrimLeft;
    assert forall c | c in r :: c in s;
    assert r != "" ==> r[|r| - 1] == s[|s| - 1];
  }

  lemma JoinOntoNormal(path: string, part: string)
    requires Normal(path)
    ensures Normal(JoinOnto(path, part))
  {
    TrimRightNormal(Slashed(part));
    TrimLeftNormal(TrimRight(Slashed(part)));
    hide Slashed, TrimRight, TrimLeft;
  }

  lemma {:induction false} JoinedIsNormal(parts: seq<string>)
    ensures Normal(Joined(parts))
  {
    hide JoinOnto, Normal;
    if parts != [] {
      JoinedIsNormal(parts[..|parts| - 1]);
      JoinOntoNormal(Joined(parts[..|parts| - 1]), parts[|parts| - 1]);
    } else {
      EmptyIsNormal();
    }
  }

  lemma EmptyIsNormal()
    ensures Normal("")
  {
  }

  lemma JoinedNormal(s: string)
    requires Normal(s)
    ensures Joined([s]) == s
  {
    assert [s][..0] == [];
  }

  /** Joining is idempotent, which is what keeps artifact paths equal to resource paths. */
  lemma JoinIdempotent(parts: seq<string>)
    ensures Joined([Joined(parts)]) == Joined(parts)
  {
    JoinedIsNormal(parts);
    JoinedNormal(Joined(parts));
  }

  lemma JoinFile(dir: string, file: string)
    requires Normal(dir) && dir != ""
    requires Normal(file) && file != "" && file[0] != '/'
    ensures Joined([dir, file]) == dir + "/" + file
  {
    assert [dir, file][..1] == [dir];
    JoinedNormal(dir);
  }

  /** The pieces between slashes; there is always at least one. */
  function Segments(s: string): (r: seq<string>)
    ensures r != []
  {
    if s == "" then [""] else WithChar(Segments(s[..|s| - 1]), s[|s| - 1])
  }

  function WithChar(pieces: seq<string>, c: char): (r: seq<string>)
    requires pieces != []
    ensures r != []
  {
    var last := |pieces| - 1;
    if c == '/' then pieces + [""] else pieces[..last] + [pieces[last] + [c]]
  }

  lemma WithCharAppended(a: seq<string>, b: seq<string>, c: char)
    requires b != []
    ensures WithChar(a + b, c) == a + WithChar(b, c)
  {
    if c != '/' {
      assert (a + b)[..|a + b| - 1] == a + b[..|b| - 1];
    }
  }

  lemma {:induction false} SegmentsConcat(a: string, b: string)
    ensures Segments(a + "/" + b) == Segments(a) + Segments(b)
  {
    var whole := a + "/" + b;
    if b == "" {
      assert whole == a + "/" && whole[..|whole| - 1] == a;
    } else {
      var init, c := b[..|b| - 1], b[|b| - 1];
      assert whole[..|whole| - 1] == a + "/" + init;
      SegmentsConcat(a, init);
      assert Segments(whole) == WithChar(Segments(a) + Segments(init), c);
      hide Segments, WithChar;
      WithCharAppended(Segments(a), Segments(init), c);
    }
  }

  lemma {:induction false} NoSlashOneSegment(s: string)
    requires '/' !in s
    ensures Segments(s) == [s]
  {
    if s != "" {
      var init, c := s[..|s| - 1], s[|s| - 1];
      assert s == init + [c];
      NoSlashOneSegment(init);
      assert WithChar([init], c) == [init + [c]];
    }
  }

  /** s[i..j] is a stretch between slashes, the ends of s counting as such. */
  ghost predicate Piece(s: string, i: int, j: int) {
    && 0 <= i <= j <= |s| && (forall k | i <= k < j :: s[k] != '/')
    && (i == 0 || s[i - 1] == '/') && (j == |s| || s[j] == '/')
  }

  ghost predicate IsPiece(s: string, x: string) {
    exists i, j :: Piece(s, i, j) && s[i..j] == x
  }

  lemma LastSlash(s: string) returns (k: nat)
    requires '/' in s
    ensures k < |s| && s[k] == '/' && '/' !in s[k + 1..]
    ensures s == s[..k] + "/" + s[k + 1..]
  {
    k := |s| - 1;
    while s[k] != '/'
      invariant k < |s| && '/' !in s[k + 1..]
      invariant exists i :: 0 <= i <= k && s[i] == '/'
      decreases k
    {
      assert s[k..] == [s[k]] + s[k + 1..];
      k := k - 1;
    }
  }

  /** The segments are exactly the stretches between slashes. */
  lemma {:induction false} SegmentsArePieces(s: string, x: string)
    ensures x in Segments(s) <==> IsPiece(s, x)
    decreases |s|
  {
    if '/' in s {
      var k := LastSlash(s);
      var a, b := s[..k], s[k + 1..];
      SegmentsConcat(a, b);
      NoSlashOneSegment(b);
      SegmentsArePieces(a, x);
      PiecesSplit(s, k, x);
    } else {
      NoSlashOneSegment(s);
      WholePiece(s, x);
    }
  }

  lemma WholePiece(s: string, x: string)
    requires '/' !in s
    ensures IsPiece(s, x) <==> x == s
  {
    assert s[0..|s|] == s;
    if x == s {
      assert Piece(s, 0, |s|);
    }
    if i, j :| Piece(s, i, j) && s[i..j] == x {
      assert i == 0 && j == |s|;
    }
  }

  /** The stretches before the slash at k are those of the text before it. */
  lemma PieceBefore(s: string, k: nat, i: int, j: int)
    requires k < |s| && s[k] == '/' && 0 <= i <= j <= k
    ensures Piece(s[..k], i, j) <==> Piece(s, i, j)
    ensures s[..k][i..j] == s[i..j]
  {
  }

  lemma PieceAfterLast(s: string, k: nat, i: int, j: int)
    requires k < |s| && s[k] == '/' && (forall x | k < x < |s| :: s[x] != '/') && j > k
    ensures Piece(s, i, j) <==> i == k + 1 && j == |s|
  {
  }

  lemma PiecesSplit(s: string, k: nat, x: string)
    requires k < |s| && s[k] == '/' && '/' !in s[k + 1..]
    ensures IsPiece(s, x) <==> IsPiece(s[..k], x) || x == s[k + 1..]
  {
    var a, b := s[..k], s[k + 1..];
    assert forall y | k < y < |s| :: s[y] == b[y - k - 1];
    assert s[k + 1..|s|] == b;
    hide Piece;
    if i, j :| Piece(a, i, j) && a[i..j] == x {
      PieceInside(a, i, j);
      PieceBefore(s, k, i, j);
    }
    if x == b {
      PieceAfterLast(s, k, k + 1, |s|);
    }
    if i, j :| Piece(s, i, j) && s[i..j] == x {
      PieceInside(s, i, j);
      if j <= k {
        PieceBefore(s, k, i, j);
      } else {
        PieceAfterLast(s, k, i, j);
      }
    }
  }

  lemma PieceInside(s: string, i: int, j: int)
    requires Piece(s, i, j)
    ensures 0 <= i <= j <= |s|
  {
  }

  lemma {:induction false} SegmentsRejoined(s: string)
    ensures WithSlashes(Segments(s)) == s
    decreases |s|
  {
    if '/' in s {
      var k := LastSlash(s);
      var a, b := s[..k], s[k + 1..];
      SegmentsConcat(a, b);
      NoSlashOneSegment(b);
      SegmentsRejoined(a);
      var pieces := Segments(s);
      assert pieces == Segments(a) + [b];
      assert pieces[..|pieces| - 1] == Segments(a);
    } else {
      NoSlashOneSegment(s);
    }
  }

  predicate DriveSegment(segment: string) {
    |segment| >= 2 && segment[1] == ':' && ('A' <= segment[0] <= 'Z' || 'a' <= segment[0] <= 'z')
  }

  predicate SafeSegment(segment: string) {
    segment != ".." && !DriveSegment(segment)
  }

  /** What path validation accepts. */
  predicate ValidPath(value: string) {
    var normalized := Slashed(value);
    normalized != "" && normalized[0] != '/' && forall segment | segment in Segments(normalized) :: SafeSegment(segment)
  }

  lemma FileInValidDirectory(dir: string, file: string)
    requires Normal(dir) && ValidPath(dir)
    requires file != "" && '/' !in file && '\\' !in file && SafeSegment(file)
    ensures Joined([dir, file]) == dir + "/" + file
    ensures Normal(dir + "/" + file) && ValidPath(dir + "/" + file)
  {
    JoinFile(dir, file);
    SegmentsConcat(dir, file);
    NoSlashOneSegment(file);
    var path := dir + "/" + file;
    assert path[0] == dir[0];
  }

  predicate Separator(c: char) {
    c == '/' || c == '\\'
  }

  /** path[i..j] is a component of the path, whichever way its separators are written. */
  ghost predicate Component(path: string, i: int, j: int) {
    && 0 <= i <= j <= |path| && (forall k | i <= k < j :: !Separator(path[k]))
    && (i == 0 || Separator(path[i - 1])) && (j == |path| || Separator(path[j]))
  }

  /** path[i..j] starts like a drive letter with its colon. */
  ghost predicate DriveAt(path: string, i: int, j: int) {
    0 <= i && i + 2 <= j <= |path| && path[i + 1] == ':'
    && ('A' <= path[i] <= 'Z' || 'a' <= path[i] <= 'z')
  }

  /**
   What path validation accepts, said of the characters: a nonempty path that does not start with a
   separator and none of whose components is a step to the parent or starts with a drive letter.
   */
  lemma ValidPathMeans(path: string)
    ensures ValidPath(path) <==>
              && path != "" && !Separator(path[0])
              && forall i, j | Component(path, i, j) :: path[i..j] != ".." && !DriveAt(path, i, j)
  {
    var s := Slashed(path);
    forall i, j | 0 <= i <= j <= |path| ensures Component(path, i, j) <==> Piece(s, i, j) {
      assert forall k | i <= k < j :: s[i..j][k - i] == s[k];
    }
    forall i, j | Component(path, i, j)
      ensures s[i..j] == path[i..j] && (SafeSegment(s[i..j]) <==> path[i..j] != ".." && !DriveAt(path, i, j))
    {
      assert forall k | i <= k < j :: s[k] == path[k];
    }
    forall x ensures x in Segments(s) <==> IsPiece(s, x) {
      SegmentsArePieces(s, x);
    }
    if ValidPath(path) {
      forall i, j | Component(path, i, j) ensures path[i..j] != ".." && !DriveAt(path, i, j) {
        assert IsPiece(s, s[i..j]);
      }
    }
    if path != "" && forall i, j | Component(path, i, j) :: path[i..j] != ".." && !DriveAt(path, i, j) {
      forall x | x in Segments(s) ensures SafeSegment(x) {
        var i, j :| Piece(s, i, j) && s[i..j] == x;
        assert Component(path, i, j);
      }
    }
  }
}
