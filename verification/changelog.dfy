/** The changelog parser: finds release headings with the pattern
    `##\s*\d.+`, turns a heading into a tag name and a comparable version,
    checks that the desired release is newer than the previous one, and cuts
    the change notes between the two heading lines. */
module Changelog {
  import opened Text
  import Versions

  /** The parser's state: the two headings found and the change notes. */
  datatype Properties = Properties(previous: string, desired: string, changes: string)

  const Empty := Properties("", "", "")

  // ---------------------------------------------------------------------------
  // The heading pattern `##\s*\d.+` under RE2 leftmost-first matching
  // ---------------------------------------------------------------------------

  /** First index at or after `k` that is not an RE2 `\s` character. */
  function SkipRegexSpace(text: string, k: nat): (r: nat)
    requires k <= |text|
    ensures k <= r <= |text|
    ensures forall j :: k <= j < r ==> IsRegexSpace(text[j])
    ensures r < |text| ==> !IsRegexSpace(text[r])
    decreases |text| - k
  {
    if k == |text| || !IsRegexSpace(text[k]) then k else SkipRegexSpace(text, k + 1)
  }

  /** First index at or after `k` holding a newline, or the end of the text. */
  function LineEnd(text: string, k: nat): (r: nat)
    requires k <= |text|
    ensures k <= r <= |text|
    ensures forall j :: k <= j < r ==> text[j] != '\n'
    ensures r < |text| ==> text[r] == '\n'
    decreases |text| - k
  {
    if k == |text| || text[k] == '\n' then k else LineEnd(text, k + 1)
  }

  /** End of the match of `##\s*\d.+` that starts at `i`, if one does. The
      greedy `\s*` must stop on the digit (a shorter run would leave a space
      where the digit is needed) and the greedy `.+` runs to the end of the
      line. */
  function MatchAt(text: string, i: nat): (r: Option<nat>)
    requires i <= |text|
    ensures r.Some? ==> i + 4 <= r.value <= |text|
  {
    if i + 2 <= |text| && text[i] == '#' && text[i + 1] == '#' then
      var k := SkipRegexSpace(text, i + 2);
      if k + 1 < |text| && IsDigit(text[k]) && text[k + 1] != '\n' then Some(LineEnd(text, k + 1))
      else None
    else None
  }

  /** Declarative reading of one match `text[s..e]`: two hash marks, a run of
      `\s` up to index `k`, a digit at `k`, then at least one character that is
      not a newline, running up to a newline or the end of the text. */
  ghost predicate IsMatch(text: string, s: nat, k: nat, e: nat) {
    && s + 2 <= k && k + 1 < e <= |text|
    && text[s] == '#' && text[s + 1] == '#'
    && (forall j :: s + 2 <= j < k ==> IsRegexSpace(text[j]))
    && IsDigit(text[k])
    && (forall j :: k < j < e ==> text[j] != '\n')
    && (e == |text| || text[e] == '\n')
  }

  /** `MatchAt` finds exactly the declarative matches. */
  lemma MatchAtIsMatch(text: string, s: nat, e: nat)
    requires s <= |text|
    ensures MatchAt(text, s) == Some(e) <==> exists k: nat :: IsMatch(text, s, k, e)
  {
    if MatchAt(text, s) == Some(e) {
      assert IsMatch(text, s, SkipRegexSpace(text, s + 2), e);
    }
    if k: nat :| IsMatch(text, s, k, e) {
      SkipRegexSpaceIs(text, s + 2, k);
      LineEndIs(text, k + 1, e);
    }
  }

  /** The spans `FindAllString` reports when scanning from `from`: every span
      is a match, the spans come in text order without overlapping, and every
      position where a match could start lies inside one of them (so no match
      is skipped and each span starts at the leftmost candidate). */
  function Spans(text: string, from: nat): (r: seq<(nat, nat)>)
    requires from <= |text|
    ensures forall i :: 0 <= i < |r| ==> from <= r[i].0 <= |text| && MatchAt(text, r[i].0) == Some(r[i].1)
    ensures forall i :: 0 <= i < |r| - 1 ==> r[i].1 <= r[i + 1].0
    decreases |text| - from
  {
    if from == |text| then []
    else
      match MatchAt(text, from)
      case Some(e) => [(from, e)] + Spans(text, e)
      case None => Spans(text, from + 1)
  }

  /** No match is skipped: every position where the pattern could start lies
      inside a reported span, so each span starts at the leftmost candidate
      and the gaps between spans hold no match. */
  lemma {:induction false} SpansCoverCandidates(text: string, from: nat, p: nat)
    requires from <= p < |text|
    requires MatchAt(text, p).Some?
    ensures exists i :: 0 <= i < |Spans(text, from)| && Spans(text, from)[i].0 <= p < Spans(text, from)[i].1
    decreases |text| - from
  {
    var r := Spans(text, from);
    match MatchAt(text, from)
    case Some(e) =>
      if p < e {
        assert r[0] == (from, e);
      } else {
        SpansCoverCandidates(text, e, p);
        var rest := Spans(text, e);
        var i :| 0 <= i < |rest| && rest[i].0 <= p < rest[i].1;
        assert r[i + 1] == rest[i];
      }
    case None =>
      SpansCoverCandidates(text, from + 1, p);
  }

  lemma SkipRegexSpaceIs(text: string, k: nat, m: nat)
    requires k <= m <= |text|
    requires forall j :: k <= j < m ==> IsRegexSpace(text[j])
    requires m < |text| ==> !IsRegexSpace(text[m])
    ensures SkipRegexSpace(text, k) == m
  {
  }

  lemma LineEndIs(text: string, k: nat, m: nat)
    requires k <= m <= |text|
    requires forall j :: k <= j < m ==> text[j] != '\n'
    requires m < |text| ==> text[m] == '\n'
    ensures LineEnd(text, k) == m
  {
  }

  /** A heading as the pattern matches it. */
  ghost predicate IsHeading(h: string) {
    exists k: nat :: IsMatch(h, 0, k, |h|)
  }

  /** The heading strings `FindAllString` returns, in text order, each one a
      whole match of the pattern. */
  function FindHeadings(text: string): (m: seq<string>)
    ensures var spans := Spans(text, 0);
      && |m| == |spans|
      && forall i :: 0 <= i < |m| ==> m[i] == text[spans[i].0..spans[i].1]
    ensures forall i :: 0 <= i < |m| ==> IsHeading(m[i])
  {
    var spans := Spans(text, 0);
    var m := seq(|spans|, i requires 0 <= i < |spans| => text[spans[i].0..spans[i].1]);
    forall i | 0 <= i < |m| ensures IsHeading(m[i]) {
      MatchedTextIsHeading(text, spans[i].0, spans[i].1);
    }
    m
  }

  lemma MatchedTextIsHeading(text: string, s: nat, e: nat)
    requires s <= |text|
    requires MatchAt(text, s) == Some(e)
    ensures IsHeading(text[s..e])
  {
    MatchAtIsMatch(text, s, e);
    var k: nat :| IsMatch(text, s, k, e);
    assert IsMatch(text[s..e], 0, k - s, e - s);
  }

  /** `GetVersions`: the first match becomes the desired heading and the second
      the previous one; with a single match only the desired heading is set and
      with none the properties are left as they were. */
  function GetVersions(c: Properties, text: string): (r: Properties)
    ensures r.changes == c.changes
    ensures var m := FindHeadings(text);
      && (|m| >= 2 ==> r.desired == m[0] && r.previous == m[1])
      && (|m| == 1 ==> r.desired == m[0] && r.previous == c.previous)
      && (|m| == 0 ==> r == c)
    ensures r.desired != c.desired ==> IsHeading(r.desired)
    ensures r.previous != c.previous ==> IsHeading(r.previous)
  {
    var m := FindHeadings(text);
    if |m| > 1 then c.(desired := m[0], previous := m[1])
    else if |m| == 1 then c.(desired := m[0])
    else c
  }

  // ---------------------------------------------------------------------------
  // Tag name and version string
  // ---------------------------------------------------------------------------

  /** `s` has two adjacent hash marks at `i`. */
  predicate MarkerAt(s: string, i: int) {
    0 <= i && i + 1 < |s| && s[i] == '#' && s[i + 1] == '#'
  }

  predicate NoMarker(s: string) {
    forall i :: 0 <= i < |s| ==> !MarkerAt(s, i)
  }

  /** `ConvertToDesiredTag`: every match of `##\s*` removed, scanning left to
      right. */
  function ConvertToDesiredTag(desired: string): string
    decreases |desired|
  {
    if MarkerAt(desired, 0) then ConvertToDesiredTag(desired[SkipRegexSpace(desired, 2)..])
    else if desired == [] then []
    else [desired[0]] + ConvertToDesiredTag(desired[1..])
  }

  lemma ConvertKeepsUnmarkedHead(s: string)
    requires s != [] && s[0] != '#'
    ensures ConvertToDesiredTag(s) == [s[0]] + ConvertToDesiredTag(s[1..])
  {
  }

  /** The tag name never holds two adjacent hash marks: removing a marker
      cannot bring two hash marks together. */
  lemma {:induction false} ConvertLeavesNoMarker(s: string)
    ensures NoMarker(ConvertToDesiredTag(s))
    decreases |s|
  {
    if MarkerAt(s, 0) {
      ConvertLeavesNoMarker(s[SkipRegexSpace(s, 2)..]);
    } else if s != [] {
      ConvertLeavesNoMarker(s[1..]);
      var rest := ConvertToDesiredTag(s[1..]);
      if s[0] == '#' && rest != [] {
        assert s[1] != '#';
        ConvertKeepsUnmarkedHead(s[1..]);
      }
      var r := [s[0]] + rest;
      forall i | 0 <= i < |r| ensures !MarkerAt(r, i) {
        if i > 0 { assert !MarkerAt(rest, i - 1); }
      }
    }
  }

  /** Text without a marker comes through unchanged. */
  lemma {:induction false} ConvertWithoutMarker(s: string)
    requires NoMarker(s)
    ensures ConvertToDesiredTag(s) == s
    decreases |s|
  {
    if s != [] {
      assert !MarkerAt(s, 0);
      assert forall i :: 0 <= i < |s[1..]| ==> !MarkerAt(s[1..], i) by {
        forall i | 0 <= i < |s[1..]| ensures !MarkerAt(s[1..], i) {
          assert !MarkerAt(s, i + 1);
        }
      }
      ConvertWithoutMarker(s[1..]);
    }
  }

  /** Converting twice is converting once. */
  lemma ConvertIdempotent(s: string)
    ensures ConvertToDesiredTag(ConvertToDesiredTag(s)) == ConvertToDesiredTag(s)
  {
    ConvertLeavesNoMarker(s);
    ConvertWithoutMarker(ConvertToDesiredTag(s));
  }

  /** The heading marker and the spaces after it are removed and the rest of
      a heading is kept verbatim, trailing text included. */
  lemma ConvertHeading(w: string, r: string)
    requires forall i :: 0 <= i < |w| ==> IsRegexSpace(w[i])
    requires r == [] || !IsRegexSpace(r[0])
    requires NoMarker(r)
    ensures ConvertToDesiredTag("##" + w + r) == r
  {
    var s := "##" + w + r;
    assert MarkerAt(s, 0);
    assert forall j :: 2 <= j < 2 + |w| ==> s[j] == w[j - 2];
    assert 2 + |w| < |s| ==> s[2 + |w|] == r[0];
    SkipRegexSpaceIs(s, 2, 2 + |w|);
    assert ConvertToDesiredTag(s) == ConvertToDesiredTag(s[2 + |w|..]);
    assert s[2 + |w|..] == r;
    ConvertWithoutMarker(r);
  }

  /** `s` without its hash marks. */
  function WithoutHashes(s: string): string {
    if s == [] then []
    else (if s[0] == '#' then [] else [s[0]]) + WithoutHashes(s[1..])
  }

  /** `s` without its hash marks and its `\s` characters: what a version
      string is made of. */
  function VersionChars(s: string): string {
    if s == [] then []
    else (if s[0] == '#' || IsRegexSpace(s[0]) then [] else [s[0]]) + VersionChars(s[1..])
  }

  /** `getVersion`: every `##` met in a left-to-right scan and every `\s`
      character removed. The characters other than hash marks are exactly
      those of the heading that are neither hash marks nor `\s`, in order;
      a lone `#` stays, and so does a `##` that only forms once the
      characters between its two marks are gone. */
  function GetVersion(h: string): (v: string)
    ensures forall i :: 0 <= i < |v| ==> !IsRegexSpace(v[i])
    ensures |v| <= |h|
    ensures WithoutHashes(v) == VersionChars(h)
    decreases |h|
  {
    if MarkerAt(h, 0) then
      assert h[1..][1..] == h[2..];
      assert VersionChars(h) == VersionChars(h[1..]) == VersionChars(h[2..]);
      GetVersion(h[2..])
    else if h == [] then []
    else if IsRegexSpace(h[0]) then GetVersion(h[1..])
    else
      var g := GetVersion(h[1..]);
      assert ([h[0]] + g)[1..] == g;
      [h[0]] + g
  }

  /** The hash marks `getVersion` keeps when the scan never sees them next to
      each other: `# #` becomes `##`. */
  lemma SpacedHashesSurvive()
    ensures GetVersion("# #") == "##"
  {
    assert !MarkerAt("# #", 0);
    assert "# #"[1..] == " #";
    assert " #"[1..] == "#";
  }

  /** A text with no hash mark and no `\s` is its own version string. */
  lemma {:induction false} GetVersionOfPlain(r: string)
    requires forall i :: 0 <= i < |r| ==> r[i] != '#' && !IsRegexSpace(r[i])
    ensures GetVersion(r) == r
    decreases |r|
  {
    if r != [] {
      GetVersionOfPlain(r[1..]);
    }
  }

  /** Leading `\s` characters are dropped. */
  lemma {:induction false} GetVersionSkipsSpace(w: string, t: string)
    requires forall i :: 0 <= i < |w| ==> IsRegexSpace(w[i])
    ensures GetVersion(w + t) == GetVersion(t)
    decreases |w|
  {
    if w == [] {
      assert w + t == t;
    } else {
      var s := w + t;
      assert s[0] == w[0];
      assert !MarkerAt(s, 0);
      assert GetVersion(s) == GetVersion(s[1..]);
      assert s[1..] == w[1..] + t;
      GetVersionSkipsSpace(w[1..], t);
    }
  }

  /** Appending `\s` characters changes nothing. */
  lemma {:induction false} GetVersionDropsTrailingSpace(r: string, w: string)
    requires forall i :: 0 <= i < |r| ==> r[i] != '#' && !IsRegexSpace(r[i])
    requires forall i :: 0 <= i < |w| ==> IsRegexSpace(w[i])
    ensures GetVersion(r + w) == r
    decreases |r|
  {
    if r == [] {
      assert r + w == w + [];
      GetVersionSkipsSpace(w, []);
    } else {
      assert (r + w)[1..] == r[1..] + w;
      GetVersionDropsTrailingSpace(r[1..], w);
    }
  }

  /** `##`, spaces, a version, spaces: the version alone is left. */
  lemma GetVersionOfHeading(w1: string, r: string, w2: string)
    requires forall i :: 0 <= i < |w1| ==> IsRegexSpace(w1[i])
    requires forall i :: 0 <= i < |w2| ==> IsRegexSpace(w2[i])
    requires forall i :: 0 <= i < |r| ==> r[i] != '#' && !IsRegexSpace(r[i])
    ensures GetVersion("##" + w1 + r + w2) == r
  {
    var tail := w1 + (r + w2);
    ConcatAssoc("##", w1, r, w2);
    calc {
      GetVersion("##" + w1 + r + w2);
      { GetVersionAfterMarker(tail); }
      GetVersion(tail);
      { GetVersionSkipsSpace(w1, r + w2); }
      GetVersion(r + w2);
      { GetVersionDropsTrailingSpace(r, w2); }
      r;
    }
  }

  lemma ConcatAssoc(a: string, b: string, c: string, d: string)
    ensures a + b + c + d == a + (b + (c + d))
  {
  }

  /** A leading `##` is dropped. */
  lemma GetVersionAfterMarker(t: string)
    ensures GetVersion("##" + t) == GetVersion(t)
  {
    var s := "##" + t;
    assert MarkerAt(s, 0);
    assert s[2..] == t;
  }

  // ---------------------------------------------------------------------------
  // Version ordering
  // ---------------------------------------------------------------------------

  /** The comparison is defined: both version strings parse whenever a previous
      heading exists (go-version's parse error is ignored by the code and the
      nil version it leaves would be dereferenced). */
  predicate OrderingDefined(c: Properties) {
    c.previous == "" ||
    (Versions.Parse(GetVersion(c.previous)).Some? && Versions.Parse(GetVersion(c.desired)).Some?)
  }

  /** `ValidateVersionSemantics`: vacuously valid without a previous heading,
      otherwise valid exactly when the desired version exceeds the previous one
      at the first segment where the two differ. */
  function ValidateVersionSemantics(c: Properties): (valid: bool)
    requires OrderingDefined(c)
    ensures c.previous == "" ==> valid
    ensures c.previous != "" ==>
      (valid <==> Versions.LexGreater(Versions.Parse(GetVersion(c.desired)).value,
                                      Versions.Parse(GetVersion(c.previous)).value))
  {
    if c.previous == "" then true
    else
      var previous := Versions.Parse(GetVersion(c.previous)).value;
      var desired := Versions.Parse(GetVersion(c.desired)).value;
      Versions.GreaterThanIsLex(desired, previous);
      Versions.GreaterThan(desired, previous)
  }

  /** Two headings naming the same version are never in valid order. */
  lemma SameVersionInvalid(c: Properties)
    requires OrderingDefined(c) && c.previous != ""
    requires GetVersion(c.desired) == GetVersion(c.previous)
    ensures !ValidateVersionSemantics(c)
  {
    Versions.CompareReflexive(Versions.Parse(GetVersion(c.desired)).value);
  }

  /** Exchanging the two headings of a valid pair makes it invalid. */
  lemma SwappedInvalid(c: Properties)
    requires OrderingDefined(c) && c.previous != "" && c.desired != ""
    requires ValidateVersionSemantics(c)
    ensures OrderingDefined(c.(desired := c.previous, previous := c.desired))
    ensures !ValidateVersionSemantics(c.(desired := c.previous, previous := c.desired))
  {
    Versions.CompareAntisymmetric(Versions.Parse(GetVersion(c.desired)).value,
                                  Versions.Parse(GetVersion(c.previous)).value);
  }

  /** A changelog with fewer than two headings is always in valid order: the
      first-ever release, and also a changelog with no heading at all. */
  lemma FirstReleaseValid(text: string)
    requires |FindHeadings(text)| <= 1
    ensures OrderingDefined(GetVersions(Empty, text))
    ensures ValidateVersionSemantics(GetVersions(Empty, text))
  {
  }

  // ---------------------------------------------------------------------------
  // Change notes
  // ---------------------------------------------------------------------------

  /** Index of the first newline in `s`, or `|s|`. */
  function NewlineIndex(s: string): (n: nat)
    ensures n <= |s|
    ensures forall j :: 0 <= j < n ==> s[j] != '\n'
    ensures n < |s| ==> s[n] == '\n'
  {
    if s == [] || s[0] == '\n' then 0 else 1 + NewlineIndex(s[1..])
  }

  /** One trailing carriage return removed, as `bufio.ScanLines` does. */
  function DropCR(s: string): string {
    if s != [] && s[|s| - 1] == '\r' then s[..|s| - 1] else s
  }

  /** The tokens of a `bufio.Scanner` with `ScanLines`: the text split at each
      newline, without an empty last line after a final newline, each line
      stripped of one trailing carriage return. */
  function Lines(text: string): (ls: seq<string>)
    ensures forall i :: 0 <= i < |ls| ==> Free(ls[i], '\n')
    decreases |text|
  {
    if text == [] then []
    else
      var n := NewlineIndex(text);
      if n < |text| then [DropCR(text[..n])] + Lines(text[n + 1..])
      else [DropCR(text)]
  }

  /** Lines that are non-empty, newline-free and do not end in a carriage
      return come back from the scanner exactly as they were joined. */
  lemma {:induction false} LinesOfJoin(xs: seq<string>)
    requires forall i :: 0 <= i < |xs| ==> xs[i] != [] && Free(xs[i], '\n') && xs[i][|xs[i]| - 1] != '\r'
    ensures Lines(Join(xs, "\n")) == xs
  {
    if xs != [] {
      var x := xs[0];
      if |xs| == 1 {
        assert NewlineIndex(x) == |x|;
      } else {
        var t := Join(xs[1..], "\n");
        var s := x + "\n" + t;
        assert s == Join(xs, "\n");
        NewlineIndexOfPrefix(x, t);
        assert s[..|x|] == x;
        assert s[|x| + 1..] == t;
        LinesOfJoin(xs[1..]);
      }
    }
  }

  lemma {:induction false} NewlineIndexOfPrefix(x: string, t: string)
    requires Free(x, '\n')
    ensures NewlineIndex(x + "\n" + t) == |x|
    decreases |x|
  {
    if x != [] {
      assert (x + "\n" + t)[1..] == x[1..] + "\n" + t;
      NewlineIndexOfPrefix(x[1..], t);
    }
  }

  /** Line `j` ends the scan: it equals the non-empty previous heading and is
      not itself the desired heading (that check comes first). */
  predicate StopsScan(line: string, desired: string, previous: string) {
    previous != "" && line == previous && line != desired
  }

  /** Index of the line that ends the scan, or the number of lines. */
  function StopAt(lines: seq<string>, desired: string, previous: string): (n: nat)
    ensures n <= |lines|
    ensures n < |lines| ==> StopsScan(lines[n], desired, previous)
    ensures forall j :: 0 <= j < n ==> !StopsScan(lines[j], desired, previous)
  {
    if lines == [] || StopsScan(lines[0], desired, previous) then 0
    else 1 + StopAt(lines[1..], desired, previous)
  }

  /** Line `j` is recorded: it lies before the end of the scan, after a line
      equal to the desired heading, and is neither that heading nor empty. */
  predicate Kept(lines: seq<string>, desired: string, previous: string, j: int) {
    && 0 <= j < StopAt(lines, desired, previous)
    && lines[j] != desired
    && lines[j] != ""
    && desired in lines[..j]
  }

  /** The recorded lines among the first `n`, in document order. */
  function KeptUpTo(lines: seq<string>, desired: string, previous: string, n: nat): seq<string>
    requires n <= |lines|
  {
    if n == 0 then []
    else KeptUpTo(lines, desired, previous, n - 1)
         + (if Kept(lines, desired, previous, n - 1) then [lines[n - 1]] else [])
  }

  /** The change notes, as a list of lines. */
  function ChangeLines(lines: seq<string>, desired: string, previous: string): seq<string> {
    KeptUpTo(lines, desired, previous, |lines|)
  }

  lemma {:induction false} KeptUpToStable(lines: seq<string>, desired: string, previous: string, n: nat)
    requires StopAt(lines, desired, previous) <= n <= |lines|
    ensures KeptUpTo(lines, desired, previous, n) == KeptUpTo(lines, desired, previous, StopAt(lines, desired, previous))
  {
    if n > StopAt(lines, desired, previous) {
      KeptUpToStable(lines, desired, previous, n - 1);
    }
  }

  /** `RetrieveChanges`: scan the lines, start recording after a line equal to
      the desired heading, stop at a line equal to the non-empty previous
      heading, drop empty lines and join the rest with single newlines. */
  method RetrieveChanges(c: Properties, text: string) returns (r: Properties)
    ensures r == c.(changes := Join(ChangeLines(Lines(text), c.desired, c.previous), "\n"))
  {
    var lines := Lines(text);
    var recording := false;
    var changes: seq<string> := [];
    var i := 0;
    while i < |lines|
      invariant i <= StopAt(lines, c.desired, c.previous)
      invariant recording <==> c.desired in lines[..i]
      invariant changes == KeptUpTo(lines, c.desired, c.previous, i)
    {
      var line := lines[i];
      if line == c.desired {
        recording := true;
        assert lines[..i + 1] == lines[..i] + [line];
        i := i + 1;
        continue;
      }
      if c.previous != "" && line == c.previous {
        break;
      }
      if recording && line != "" {
        changes := changes + [line];
      }
      assert lines[..i + 1] == lines[..i] + [line];
      i := i + 1;
    }
    KeptUpToStable(lines, c.desired, c.previous, i);
    KeptUpToStable(lines, c.desired, c.previous, |lines|);
    r := c.(changes := Join(changes, "\n"));
  }

  /** The same result as a function, for the command pipeline. */
  function Changes(c: Properties, text: string): (r: Properties)
    ensures r.previous == c.previous && r.desired == c.desired
  {
    c.(changes := Join(ChangeLines(Lines(text), c.desired, c.previous), "\n"))
  }

  /** No recorded line is empty or equal to the desired heading. */
  lemma {:induction false} ChangeLinesAreBody(lines: seq<string>, desired: string, previous: string, n: nat)
    requires n <= |lines|
    ensures forall i :: 0 <= i < |KeptUpTo(lines, desired, previous, n)| ==>
      KeptUpTo(lines, desired, previous, n)[i] != "" && KeptUpTo(lines, desired, previous, n)[i] != desired
  {
    if n > 0 {
      ChangeLinesAreBody(lines, desired, previous, n - 1);
    }
  }

  /** Nothing is recorded when the scan stops before any line equal to the
      desired heading, for instance when the previous heading comes first. */
  lemma {:induction false} StopBeforeDesiredRecordsNothing(lines: seq<string>, desired: string, previous: string, n: nat)
    requires n <= |lines|
    requires desired !in lines[..StopAt(lines, desired, previous)]
    ensures KeptUpTo(lines, desired, previous, n) == []
  {
    if n > 0 {
      StopBeforeDesiredRecordsNothing(lines, desired, previous, n - 1);
    }
  }

  /** Without a previous heading the scan runs to the end of the text. */
  lemma NoPreviousScansToEnd(lines: seq<string>, desired: string)
    ensures StopAt(lines, desired, "") == |lines|
  {
  }

  /** The change notes split back into the recorded lines when none of them
      ends in a carriage return: they are joined by single newlines. */
  lemma ChangesSplitBack(lines: seq<string>, desired: string, previous: string)
    requires forall i :: 0 <= i < |lines| ==> Free(lines[i], '\n')
    requires forall i :: 0 <= i < |lines| && lines[i] != "" ==> lines[i][|lines[i]| - 1] != '\r'
    ensures Lines(Join(ChangeLines(lines, desired, previous), "\n")) == ChangeLines(lines, desired, previous)
  {
    KeptAreLines(lines, desired, previous, |lines|);
    ChangeLinesAreBody(lines, desired, previous, |lines|);
    LinesOfJoin(ChangeLines(lines, desired, previous));
  }

  lemma {:induction false} KeptAreLines(lines: seq<string>, desired: string, previous: string, n: nat)
    requires n <= |lines|
    ensures forall i :: 0 <= i < |KeptUpTo(lines, desired, previous, n)| ==>
      KeptUpTo(lines, desired, previous, n)[i] in lines
  {
    if n > 0 {
      KeptAreLines(lines, desired, previous, n - 1);
    }
  }
}
