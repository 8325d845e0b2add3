/**
 Recording the labels the program owns in a hidden comment inside a review comment, reading them
 back, and removing the record again. How a label list is encoded in the payload is a parameter:
 an injective codec whose output contains no space.
 */
module ManagedLabels {
  import opened Options
  import opened Digraph
  import opened StringOrder
  import opened Text

  const PREFIX := "<!-- terraci-managed-labels:v1:"
  const SUFFIX := " -->"
  const MARKER := "<!-- terraci-plan-comment -->"

  datatype Codec = Codec(encode: seq<string> -> string, decode: string -> Option<seq<string>>)

  ghost predicate Faithful(c: Codec) {
    forall labels :: c.decode(c.encode(labels)) == Some(labels) && ' ' !in c.encode(labels)
  }

  // ------------------------------------------------------------ normal label lists

  /** The label is appended unless it is empty or already there. */
  function Enter(r: seq<string>, x: string): (more: seq<string>)
    ensures forall l :: l in more <==> l in r || (l == x && l != "")
    ensures Distinct(r) ==> Distinct(more)
  {
    if x == "" || x in r then r else r + [x]
  }

  /** The distinct nonempty trimmed labels in order of first occurrence. */
  function Collected(labels: seq<string>): (r: seq<string>)
    ensures Distinct(r)
    ensures forall l :: l in r <==> l != "" && Trims(labels, l)
  {
    if labels == [] then []
    else
      var last := |labels| - 1;
      assert labels == labels[..last] + [labels[last]];
      TrimsSnoc(labels[..last], labels[last]);
      Enter(Collected(labels[..last]), TrimSpace(labels[last]))
  }

  ghost predicate Trims(labels: seq<string>, l: string) {
    exists x :: x in labels && TrimSpace(x) == l
  }

  lemma TrimsSnoc(labels: seq<string>, x: string)
    ensures forall l :: Trims(labels + [x], l) <==> Trims(labels, l) || TrimSpace(x) == l
  {
    forall l | Trims(labels, l) ensures Trims(labels + [x], l) {
      var y :| y in labels && TrimSpace(y) == l;
      assert y in labels + [x];
    }
    assert x in labels + [x];
  }

  function Normalized(labels: seq<string>): seq<string> {
    SortStrings(Collected(labels))
  }

  /** The normal list is ascending and holds exactly the nonempty trimmed labels. */
  lemma NormalizedMeans(labels: seq<string>)
    ensures Ascending(Normalized(labels))
    ensures forall l :: l in Normalized(labels) <==> l != "" && Trims(labels, l)
  {
    assert forall l :: l in Normalized(labels) <==> l in Elements(Normalized(labels));
    assert forall l :: l in Collected(labels) <==> l in Elements(Collected(labels));
  }

  lemma NormalizedIdempotent(labels: seq<string>)
    ensures Normalized(Normalized(labels)) == Normalized(labels)
  {
    var once := Normalized(labels);
    NormalizedMeans(labels);
    NormalizedMeans(once);
    forall l ensures l in Normalized(once) <==> l in once {
      if l in once {
        var x :| x in labels && TrimSpace(x) == l;
        TrimSpaceIdempotent(x);
        assert TrimSpace(l) == l;
      }
      if l in Normalized(once) {
        var y :| y in once && TrimSpace(y) == l;
        var x :| x in labels && TrimSpace(x) == y;
        TrimSpaceIdempotent(x);
      }
    }
    AscendingUnique(Normalized(once), once);
  }

  method NormalizeManagedLabels(labels: seq<string>) returns (r: seq<string>)
    ensures r == Normalized(labels)
  {
    hide TrimSpace, Distinct, Trims;
    var seen: set<string> := {};
    var out: seq<string> := [];
    for i := 0 to |labels|
      invariant out == Collected(labels[..i]) && seen == Elements(out)
    {
      assert labels[..i + 1][..i] == labels[..i];
      var trimmed := TrimSpace(labels[i]);
      if trimmed == "" || trimmed in seen {
        continue;
      }
      ElementsSnoc(out, trimmed);
      seen := seen + {trimmed};
      out := out + [trimmed];
    }
    assert labels[..|labels|] == labels;
    r := SortStrings(out);
  }

  // ------------------------------------------------------------ removing the record

  function Stripped(body: string): string
    decreases |body|
  {
    var start := Index(body, PREFIX);
    if start < 0 then body
    else
      var end := Index(body[start..], SUFFIX);
      if end < 0 then body[..start]
      else Stripped(body[..start] + body[start + end + |SUFFIX|..])
  }

  method StripManagedLabelsMetadata(body: string) returns (r: string)
    ensures r == Stripped(body)
  {
    r := body;
    while true
      invariant Stripped(r) == Stripped(body)
      decreases |r|
    {
      var start := Index(r, PREFIX);
      if start < 0 {
        return r;
      }
      var end := Index(r[start..], SUFFIX);
      if end < 0 {
        NothingBeforeFirst(r, start);
        return r[..start];
      }
      r := r[..start] + r[start + end + |SUFFIX|..];
    }
  }

  lemma NothingBeforeFirst(body: string, start: nat)
    requires Index(body, PREFIX) == start
    ensures !Contains(body[..start], PREFIX) && Stripped(body[..start]) == body[..start]
  {
    if Contains(body[..start], PREFIX) {
      var k :| At(body[..start], PREFIX, k);
      assert body[..start][k..k + |PREFIX|] == body[k..k + |PREFIX|];
      assert At(body, PREFIX, k);
    }
  }

  /** No metadata is left, not even when a removal joins the text around it into a new prefix. */
  lemma {:induction false} StripLeavesNone(body: string)
    ensures !Contains(Stripped(body), PREFIX)
    decreases |body|
  {
    hide IndexFrom, At;
    var start := Index(body, PREFIX);
    if start >= 0 {
      var end := Index(body[start..], SUFFIX);
      if end < 0 {
        NothingBeforeFirst(body, start);
      } else {
        StripLeavesNone(body[..start] + body[start + end + |SUFFIX|..]);
      }
    }
  }

  lemma StripIdentity(body: string)
    requires !Contains(body, PREFIX)
    ensures Stripped(body) == body
  {
  }

  // ------------------------------------------------------------ writing and reading the record

  function Metadata(c: Codec, labels: seq<string>): string {
    PREFIX + c.encode(Normalized(labels)) + SUFFIX
  }

  function Embedded(c: Codec, body: string, labels: seq<string>): string {
    var clean := Stripped(body);
    var i := Index(clean, MARKER);
    if i >= 0 then clean[..i] + MARKER + "\n" + Metadata(c, labels) + clean[i + |MARKER|..]
    else MARKER + "\n" + Metadata(c, labels) + "\n\n" + clean
  }

  function Extracted(c: Codec, body: string): seq<string> {
    var start := Index(body, PREFIX);
    if start < 0 then []
    else
      var payload := body[start + |PREFIX|..];
      var end := Index(payload, SUFFIX);
      if end < 0 then []
      else match c.decode(payload[..end])
           case None => []
           case Some(labels) => Normalized(labels)
  }

  /** The first occurrence of sub in s is at i. */
  ghost predicate FirstAt(s: string, sub: string, i: nat) {
    At(s, sub, i) && forall k | 0 <= k < i :: !At(s, sub, k)
  }

  /**
   Embedding writes the comment with the normalised labels on a line of its own, right below the first
   marker of the stripped body.
   */
  lemma EmbeddedBelowMarker(c: Codec, body: string, labels: seq<string>, before: string, after: string)
    requires Stripped(body) == before + MARKER + after && FirstAt(Stripped(body), MARKER, |before|)
    ensures Embedded(c, body, labels) ==
            before + MARKER + "\n" + (PREFIX + c.encode(Normalized(labels)) + SUFFIX) + after
  {
    var clean, i := Stripped(body), |before|;
    hide Stripped, Normalized;
    IndexIs(clean, MARKER, i);
    assert clean[..i] == before && clean[i + |MARKER|..] == after;
  }

  /** Without a marker, embedding puts one above the comment and a blank line below it. */
  lemma EmbeddedAbove(c: Codec, body: string, labels: seq<string>)
    requires !Contains(Stripped(body), MARKER)
    ensures Embedded(c, body, labels) ==
            MARKER + "\n" + (PREFIX + c.encode(Normalized(labels)) + SUFFIX) + "\n\n" + Stripped(body)
  {
    hide Stripped, Normalized;
  }

  /** What is read is the payload between the first prefix and the first suffix after it. */
  lemma ExtractedMeans(c: Codec, body: string, before: string, payload: string, after: string)
    requires body == before + PREFIX + (payload + SUFFIX + after)
    requires FirstAt(body, PREFIX, |before|) && FirstAt(payload + SUFFIX + after, SUFFIX, |payload|)
    ensures Extracted(c, body) == match c.decode(payload) case None => [] case Some(labels) => Normalized(labels)
  {
    hide Normalized;
    var rest := payload + SUFFIX + after;
    IndexIs(body, PREFIX, |before|);
    IndexIs(rest, SUFFIX, |payload|);
    assert body[|before| + |PREFIX|..] == rest && rest[..|payload|] == payload;
  }

  /** Nothing is read without a prefix, or without a suffix after the first one. */
  lemma NothingExtracted(c: Codec, body: string, before: string, rest: string)
    requires !Contains(body, PREFIX)
             || (body == before + PREFIX + rest && FirstAt(body, PREFIX, |before|) && !Contains(rest, SUFFIX))
    ensures Extracted(c, body) == []
  {
    if Contains(body, PREFIX) {
      IndexIs(body, PREFIX, |before|);
      assert body[|before| + |PREFIX|..] == rest;
    }
  }

  /** An occurrence of a text without line breaks does not cross one. */
  lemma NotAcrossNewline(before: string, after: string, sub: string, k: int)
    requires '\n' !in sub && At(before + "\n" + after, sub, k)
    ensures k + |sub| <= |before| || k > |before|
  {
    var whole := before + "\n" + after;
    assert whole[|before|] == '\n';
    if k <= |before| < k + |sub| {
      CharAt(whole, sub, k, |before| - k);
    }
  }

  lemma AtBefore(before: string, after: string, sub: string, k: int)
    requires '\n' !in sub && At(before + "\n" + after, sub, k) && k <= |before|
    ensures At(before, sub, k)
  {
    NotAcrossNewline(before, after, sub, k);
    assert (before + "\n" + after)[k..k + |sub|] == before[k..k + |sub|];
  }

  lemma AtAfter(before: string, after: string, sub: string, k: int)
    requires '\n' !in sub && At(before + "\n" + after, sub, k) && k > |before|
    ensures At(after, sub, k - |before| - 1)
  {
    var j := k - |before| - 1;
    assert (before + "\n" + after)[k..k + |sub|] == after[j..j + |sub|];
  }

  lemma PrefixShape()
    ensures '\n' !in PREFIX && |MARKER| < |PREFIX| && SUFFIX[0] == ' ' && SUFFIX[1] == '-'
    ensures forall j | 0 <= j < |PREFIX| && PREFIX[j] == ' ' :: j == 4
    ensures PREFIX[5] == 't'
  {
  }

  lemma MarkerShape()
    ensures '\n' !in MARKER
  {
  }

  /** The record starts right after the line break when the text before holds no prefix. */
  lemma RecordFound(before: string, payload: string, after: string)
    requires !Contains(before, PREFIX)
    ensures Index(before + "\n" + (PREFIX + payload + SUFFIX + after), PREFIX) == |before| + 1
  {
    PrefixShape();
    var rest := PREFIX + payload + SUFFIX + after;
    var whole := before + "\n" + rest;
    assert whole[|before| + 1..|before| + 1 + |PREFIX|] == PREFIX;
    forall k | 0 <= k < |before| + 1 ensures !At(whole, PREFIX, k) {
      if At(whole, PREFIX, k) {
        AtBefore(before, rest, PREFIX, k);
      }
    }
    IndexIs(whole, PREFIX, |before| + 1);
  }

  lemma SuffixFound(payload: string, after: string)
    requires ' ' !in payload
    ensures Index(payload + SUFFIX + after, SUFFIX) == |payload|
    ensures Index(PREFIX + payload + SUFFIX + after, SUFFIX) == |PREFIX| + |payload|
  {
    PrefixShape();
    var rest := payload + SUFFIX + after;
    assert rest[|payload|..|payload| + |SUFFIX|] == SUFFIX;
    forall k | 0 <= k < |payload| ensures !At(rest, SUFFIX, k) {
      assert rest[k] == payload[k];
      NotAt(rest, SUFFIX, k, 0);
    }
    IndexIs(rest, SUFFIX, |payload|);
    var whole := PREFIX + payload + SUFFIX + after;
    var at := |PREFIX| + |payload|;
    assert whole[at..at + |SUFFIX|] == SUFFIX;
    assert whole[5] == PREFIX[5];
    forall k | 0 <= k < at ensures !At(whole, SUFFIX, k) {
      assert whole[k] == if k < |PREFIX| then PREFIX[k] else payload[k - |PREFIX|];
      NotAt(whole, SUFFIX, k, if whole[k] == ' ' then 1 else 0);
    }
    IndexIs(whole, SUFFIX, at);
  }

  lemma MetadataSplit(c: Codec, before: string, labels: seq<string>, after: string)
    ensures var payload, body := c.encode(Normalized(labels)), before + "\n" + (Metadata(c, labels) + after);
            && body == before + "\n" + (PREFIX + payload + SUFFIX + after)
            && body[|before| + 1 + |PREFIX|..] == payload + SUFFIX + after
  {
    hide Normalized;
    var payload := c.encode(Normalized(labels));
    assert Metadata(c, labels) + after == PREFIX + (payload + SUFFIX + after);
    assert PREFIX + (payload + SUFFIX + after) == PREFIX + payload + SUFFIX + after;
    hide Metadata;
    var head := before + "\n" + PREFIX;
    assert before + "\n" + (PREFIX + (payload + SUFFIX + after)) == head + (payload + SUFFIX + after);
  }

  lemma RecordRead(c: Codec, before: string, labels: seq<string>, after: string)
    requires Faithful(c) && !Contains(before, PREFIX)
    ensures Extracted(c, before + "\n" + (Metadata(c, labels) + after)) == Normalized(labels)
  {
    hide Contains, Index;
    var payload := c.encode(Normalized(labels));
    MetadataSplit(c, before, labels, after);
    RecordFound(before, payload, after);
    SuffixFound(payload, after);
    assert (payload + SUFFIX + after)[..|payload|] == payload;
    NormalizedIdempotent(labels);
  }

  /** The text an embedded body shows before and after its record. */
  function Surroundings(body: string): (string, string) {
    var clean := Stripped(body);
    var i := Index(clean, MARKER);
    if i >= 0 then (clean[..i] + MARKER, clean[i + |MARKER|..]) else (MARKER, "\n\n" + clean)
  }

  lemma EmbeddedShape(c: Codec, body: string, labels: seq<string>)
    ensures var (before, after) := Surroundings(body);
            && Embedded(c, body, labels) == before + "\n" + (Metadata(c, labels) + after)
            && !Contains(before, PREFIX) && !Contains(after, PREFIX)
  {
    StripLeavesNone(body);
    hide Stripped, Metadata, Contains, At;
    var clean := Stripped(body);
    var i := Index(clean, MARKER);
    if i >= 0 {
      AroundMarker(clean, i);
    } else {
      MarkerHoldsNone();
      NewlinesAddNone(clean);
    }
  }

  lemma MarkerHoldsNone()
    ensures !Contains(MARKER, PREFIX)
  {
    PrefixShape();
  }

  lemma AroundMarker(clean: string, i: nat)
    requires !Contains(clean, PREFIX) && At(clean, MARKER, i)
    ensures !Contains(clean[..i] + MARKER, PREFIX) && !Contains(clean[i + |MARKER|..], PREFIX)
  {
    var j := i + |MARKER|;
    assert clean[..i] + MARKER == clean[0..j];
    assert clean[j..] == clean[j..|clean|];
    hide Contains, At;
    if Contains(clean[0..j], PREFIX) {
      PartContains(clean, 0, j, PREFIX);
    }
    if Contains(clean[j..|clean|], PREFIX) {
      PartContains(clean, j, |clean|, PREFIX);
    }
  }

  lemma NewlinesAddNone(clean: string)
    requires !Contains(clean, PREFIX)
    ensures !Contains("\n\n" + clean, PREFIX)
  {
    PrefixShape();
    if Contains("\n\n" + clean, PREFIX) {
      var k :| At("\n\n" + clean, PREFIX, k);
      assert "\n\n" + clean == "\n" + "\n" + clean;
      if k <= 1 {
        AtBefore("\n", clean, PREFIX, k);
      } else {
        AtAfter("\n", clean, PREFIX, k);
      }
    }
  }

  /**
   Round trip: whatever the body holds, stale, truncated or repeated records included, extracting
   from the embedded body yields the normalised labels just embedded.
   */
  lemma ExtractEmbedded(c: Codec, body: string, labels: seq<string>)
    requires Faithful(c)
    ensures Extracted(c, Embedded(c, body, labels)) == Normalized(labels)
  {
    EmbeddedShape(c, body, labels);
    var (before, after) := Surroundings(body);
    RecordRead(c, before, labels, after);
  }

  /** Nothing is left to extract from a stripped body. */
  lemma ExtractStripped(c: Codec, body: string)
    ensures Extracted(c, Stripped(body)) == []
  {
    StripLeavesNone(body);
  }

  /**
   Stripping an embedded body gives back the text around the record, joined by the line break that
   embedding put before it; embedding again therefore adds one more line break.
   */
  lemma StripEmbedded(c: Codec, body: string, labels: seq<string>)
    requires Faithful(c)
    ensures var (before, after) := Surroundings(body);
            Stripped(Embedded(c, body, labels)) == before + "\n" + after
  {
    EmbeddedShape(c, body, labels);
    var (before, after) := Surroundings(body);
    var payload := c.encode(Normalized(labels));
    var whole := Embedded(c, body, labels);
    assert Metadata(c, labels) + after == PREFIX + payload + SUFFIX + after;
    RecordFound(before, payload, after);
    var start := |before| + 1;
    assert whole[start..] == PREFIX + payload + SUFFIX + after;
    SuffixFound(payload, after);
    var end := |PREFIX| + |payload|;
    assert whole[..start] == before + "\n";
    assert whole[start + end + |SUFFIX|..] == after;
    JoinedAddsNone(before, after);
    StripIdentity(before + "\n" + after);
  }

  /** Where the marker ends the text before the record, it is still the first one once the record is gone. */
  lemma MarkerStaysFirst(clean: string, i: nat, after: string)
    requires Index(clean, MARKER) == i
    ensures Index(clean[..i] + MARKER + "\n" + after, MARKER) == i
  {
    var before := clean[..i] + MARKER;
    var whole := before + "\n" + after;
    assert whole[i..i + |MARKER|] == MARKER;
    assert before == clean[..i + |MARKER|];
    forall k | 0 <= k < i ensures !At(whole, MARKER, k) {
      MarkerNotBefore(clean, i, k, after);
    }
    IndexIs(whole, MARKER, i);
  }

  lemma MarkerNotBefore(clean: string, i: nat, k: nat, after: string)
    requires Index(clean, MARKER) == i && k < i
    ensures !At(clean[..i + |MARKER|] + "\n" + after, MARKER, k)
  {
    MarkerShape();
    var before := clean[..i + |MARKER|];
    assert !At(clean, MARKER, k);
    if At(before + "\n" + after, MARKER, k) {
      AtBefore(before, after, MARKER, k);
      AtInPrefix(clean, i + |MARKER|, MARKER, k);
    }
  }

  lemma MarkerAlone(after: string)
    ensures Index(MARKER + "\n" + after, MARKER) == 0
  {
    assert (MARKER + "\n" + after)[0..|MARKER|] == MARKER;
    IndexIs(MARKER + "\n" + after, MARKER, 0);
  }

  /** Where embedding finds the marker in the text that a first embedding leaves once stripped. */
  lemma MarkerAgain(body: string)
    ensures var (before, after) := Surroundings(body);
            |MARKER| <= |before| && Index(before + "\n" + after, MARKER) == |before| - |MARKER|
            && before[|before| - |MARKER|..] == MARKER
  {
    var clean := Stripped(body);
    var i := Index(clean, MARKER);
    if i >= 0 {
      MarkerStaysFirst(clean, i, clean[i + |MARKER|..]);
    } else {
      MarkerAlone("\n\n" + clean);
    }
  }

  /**
   Embedding again replaces the record and adds a line break after it, so embedding the same labels
   twice never gives the same text.
   */
  lemma EmbedTwice(c: Codec, body: string, first: seq<string>, second: seq<string>)
    requires Faithful(c)
    ensures var (before, after) := Surroundings(body);
            Embedded(c, Embedded(c, body, first), second) == before + "\n" + (Metadata(c, second) + ("\n" + after))
    ensures Embedded(c, Embedded(c, body, first), first) != Embedded(c, body, first)
  {
    hide Stripped, Index, Metadata, Faithful;
    EmbeddedTwiceIs(c, body, first, second);
    EmbeddedTwiceIs(c, body, first, first);
    EmbeddedShape(c, body, first);
  }

  lemma EmbeddedTwiceIs(c: Codec, body: string, first: seq<string>, second: seq<string>)
    requires Faithful(c)
    ensures var (before, after) := Surroundings(body);
            Embedded(c, Embedded(c, body, first), second) == before + "\n" + (Metadata(c, second) + ("\n" + after))
  {
    hide Stripped, Index, Metadata, Surroundings, Embedded;
    StripEmbedded(c, body, first);
    MarkerAgain(body);
    var (before, after) := Surroundings(body);
    EmbedAtMarker(c, Embedded(c, body, first), second, before, after);
  }

  lemma EmbedAtMarker(c: Codec, text: string, labels: seq<string>, before: string, after: string)
    requires Stripped(text) == before + "\n" + after && |MARKER| <= |before|
    requires Index(before + "\n" + after, MARKER) == |before| - |MARKER| && before[|before| - |MARKER|..] == MARKER
    ensures Embedded(c, text, labels) == before + "\n" + (Metadata(c, labels) + ("\n" + after))
  {
    hide Stripped, Index, Metadata;
    var clean := before + "\n" + after;
    var i := |before| - |MARKER|;
    assert clean[i + |MARKER|..] == "\n" + after;
    assert clean[..i] + MARKER == before;
    var record := Metadata(c, labels);
    assert before + "\n" + record + ("\n" + after) == before + "\n" + (record + ("\n" + after));
  }

  lemma JoinedAddsNone(before: string, after: string)
    requires !Contains(before, PREFIX) && !Contains(after, PREFIX)
    ensures !Contains(before + "\n" + after, PREFIX)
  {
    PrefixShape();
    var whole := before + "\n" + after;
    if Contains(whole, PREFIX) {
      var k :| At(whole, PREFIX, k);
      if k > |before| {
        AtAfter(before, after, PREFIX, k);
      } else {
        AtBefore(before, after, PREFIX, k);
      }
    }
  }

  // ------------------------------------------------------------ differences

  method Without(labels: seq<string>, others: set<string>) returns (r: seq<string>)
    requires Ascending(labels)
    ensures Ascending(r) && forall l :: l in r <==> l in labels && l !in others
  {
    r := [];
    for i := 0 to |labels|
      invariant Ascending(r) && forall l :: l in r <==> l in labels[..i] && l !in others
    {
      assert labels[..i + 1] == labels[..i] + [labels[i]];
      if labels[i] !in others {
        forall k | 0 <= k < |r| ensures Less(r[k], labels[i]) {
          assert r[k] in labels[..i];
        }
        r := r + [labels[i]];
      }
    }
    assert labels[..|labels|] == labels;
  }

  /** Applying the difference to the previous labels gives the current ones, and nothing is touched twice. */
  method DiffManagedLabels(previous: seq<string>, current: seq<string>) returns (add: seq<string>, remove: seq<string>)
    ensures Ascending(add) && Ascending(remove)
    ensures Elements(add) == Elements(Normalized(current)) - Elements(Normalized(previous))
    ensures Elements(remove) == Elements(Normalized(previous)) - Elements(Normalized(current))
    ensures (Elements(Normalized(previous)) - Elements(remove)) + Elements(add) == Elements(Normalized(current))
  {
    var before := NormalizeManagedLabels(previous);
    var after := NormalizeManagedLabels(current);
    NormalizedMeans(previous);
    NormalizedMeans(current);
    remove := Without(before, Elements(after));
    add := Without(after, Elements(before));
    assert forall l :: l in Elements(add) <==> l in add;
    assert forall l :: l in Elements(remove) <==> l in remove;
  }
}
