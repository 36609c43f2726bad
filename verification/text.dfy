/** Character classes and string helpers with the semantics of the Go library
    functions the release tool calls: the RE2 `\s` and `\d` classes,
    `unicode.IsSpace`, `strings.TrimSpace`, `strings.ToLower` and
    `strings.Join`. */
module Text {

  datatype Option<T> = None | Some(value: T)

  /** The RE2 perl class `\s`: tab, newline, form feed, carriage return, space. */
  predicate IsRegexSpace(c: char) {
    c == '\t' || c == '\n' || c == '\U{C}' || c == '\r' || c == ' '
  }

  /** The RE2 perl class `\d` (ASCII digits only). */
  predicate IsDigit(c: char) {
    '0' <= c <= '9'
  }

  /** Go's `unicode.IsSpace`: the Latin-1 spaces plus the Unicode White_Space
      characters above U+00FF. */
  predicate IsUnicodeSpace(c: char) {
    || c == '\t' || c == '\n' || c == '\U{B}' || c == '\U{C}' || c == '\r' || c == ' '
    || c == '\U{85}' || c == '\U{A0}'
    || c == '\U{1680}' || ('\U{2000}' <= c <= '\U{200A}')
    || c == '\U{2028}' || c == '\U{2029}' || c == '\U{202F}' || c == '\U{205F}'
    || c == '\U{3000}'
  }

  /** Number of leading characters of `s` that are Unicode spaces. */
  function LeadingSpaces(s: string): (n: nat)
    ensures n <= |s|
    ensures forall k :: 0 <= k < n ==> IsUnicodeSpace(s[k])
    ensures n < |s| ==> !IsUnicodeSpace(s[n])
  {
    if s == [] || !IsUnicodeSpace(s[0]) then 0 else 1 + LeadingSpaces(s[1..])
  }

  /** Number of trailing characters of `s` that are Unicode spaces. */
  function TrailingSpaces(s: string): (n: nat)
    ensures n <= |s|
    ensures forall k :: |s| - n <= k < |s| ==> IsUnicodeSpace(s[k])
    ensures n < |s| ==> !IsUnicodeSpace(s[|s| - 1 - n])
  {
    if s == [] || !IsUnicodeSpace(s[|s| - 1]) then 0 else 1 + TrailingSpaces(s[..|s| - 1])
  }

  /** `strings.TrimSpace`: the infix of `s` left after removing every leading
      and trailing Unicode space. */
  function TrimSpace(s: string): (r: string)
    ensures r == [] || (!IsUnicodeSpace(r[0]) && !IsUnicodeSpace(r[|r| - 1]))
    ensures LeadingSpaces(s) + |r| <= |s|
    ensures r == s[LeadingSpaces(s)..LeadingSpaces(s) + |r|]
    ensures forall k :: LeadingSpaces(s) + |r| <= k < |s| ==> IsUnicodeSpace(s[k])
  {
    var i := LeadingSpaces(s);
    if i == |s| then []
    else
      var j := TrailingSpaces(s);
      s[i..|s| - j]
  }

  /** A string with no space at either end is its own trimming. */
  lemma TrimSpaceKeepsTrimmed(s: string)
    requires s == [] || (!IsUnicodeSpace(s[0]) && !IsUnicodeSpace(s[|s| - 1]))
    ensures TrimSpace(s) == s
  {
  }

  /** The simple lowercase mapping of `unicode.ToLower`, exact for every
      character whose lowercase is an ASCII letter: 'A'..'Z', U+0130 (capital
      I with dot above, lowercase 'i') and U+212A (Kelvin sign, lowercase 'k').
      Other characters are kept. */
  function LowerChar(c: char): (l: char)
    ensures 'a' <= l <= 'z' ==> ('a' <= c <= 'z' || 'A' <= c <= 'Z' || c == '\U{130}' || c == '\U{212A}')
  {
    if 'A' <= c <= 'Z' then (c as int + 32) as char
    else if c == '\U{130}' then 'i'
    else if c == '\U{212A}' then 'k'
    else c
  }

  /** ASCII uppercase of one character. */
  function UpperAscii(c: char): char {
    if 'a' <= c <= 'z' then (c as int - 32) as char else c
  }

  /** `strings.ToLower`, one character at a time. */
  function ToLower(s: string): (r: string)
    ensures |r| == |s|
    ensures forall i :: 0 <= i < |s| ==> r[i] == LowerChar(s[i])
  {
    if s == [] then [] else [LowerChar(s[0])] + ToLower(s[1..])
  }

  /** ASCII uppercase of a whole string. */
  function ToUpperAscii(s: string): (r: string)
    ensures |r| == |s|
    ensures forall i :: 0 <= i < |s| ==> r[i] == UpperAscii(s[i])
  {
    if s == [] then [] else [UpperAscii(s[0])] + ToUpperAscii(s[1..])
  }

  /** Uppercasing before lowercasing loses nothing: `ToLower` sees through any
      ASCII case change. */
  lemma LowerOfUpper(c: char)
    ensures LowerChar(UpperAscii(c)) == LowerChar(c)
  {
  }

  /** `strings.Join`. */
  function Join(xs: seq<string>, sep: string): (r: string)
    ensures xs == [] ==> r == []
    ensures |xs| == 1 ==> r == xs[0]
  {
    if xs == [] then []
    else if |xs| == 1 then xs[0]
    else xs[0] + sep + Join(xs[1..], sep)
  }

  /** `s` contains the character `c` nowhere. */
  predicate Free(s: string, c: char) {
    forall i :: 0 <= i < |s| ==> s[i] != c
  }
}
