/** Dotted numeric versions as the changelog validator compares them: the
    segment parse of hashicorp go-version restricted to dot-separated natural
    numbers, and its ordering, which is the numeric precedence of section 11
    of Semantic Versioning 2.0.0 extended to any number of segments, a missing
    segment reading as 0. */
module Versions {
  import opened Text

  /** `strings.Split` on a single-character separator: never empty, and the
      pieces joined back with the separator give the input. */
  function Split(s: string, sep: char): (parts: seq<string>)
    ensures |parts| >= 1
    ensures forall i :: 0 <= i < |parts| ==> Free(parts[i], sep)
  {
    if s == [] then [[]]
    else
      var rest := Split(s[1..], sep);
      if s[0] == sep then [[]] + rest
      else [[s[0]] + rest[0]] + rest[1..]
  }

  lemma {:induction false} JoinSplit(s: string, sep: char)
    ensures Join(Split(s, sep), [sep]) == s
  {
    if s != [] {
      var rest := Split(s[1..], sep);
      JoinSplit(s[1..], sep);
      if s[0] == sep {
        assert Split(s, sep) == [[]] + rest;
      } else {
        var parts := Split(s, sep);
        assert parts == [[s[0]] + rest[0]] + rest[1..];
        if |rest| == 1 {
          assert Join(parts, [sep]) == [s[0]] + rest[0];
        } else {
          assert parts[1..] == rest[1..];
          assert Join(parts, [sep]) == [s[0]] + rest[0] + [sep] + Join(rest[1..], [sep]);
        }
      }
    }
  }

  lemma {:induction false} SplitJoin(xs: seq<string>, sep: char)
    requires |xs| >= 1
    requires forall i :: 0 <= i < |xs| ==> Free(xs[i], sep)
    ensures Split(Join(xs, [sep]), sep) == xs
  {
    if |xs| == 1 {
      SplitFree(xs[0], sep);
    } else {
      SplitJoin(xs[1..], sep);
      SplitPrefix(xs[0], Join(xs[1..], [sep]), sep);
    }
  }

  /** A piece free of the separator is its own split. */
  lemma {:induction false} SplitFree(s: string, sep: char)
    requires Free(s, sep)
    ensures Split(s, sep) == [s]
  {
    if s != [] {
      SplitFree(s[1..], sep);
      assert s[0] != sep;
      assert [s[0]] + s[1..] == s;
    }
  }

  /** Splitting `x + sep + t` with `x` free of the separator yields `x` and the
      split of `t`. */
  lemma {:induction false} SplitPrefix(x: string, t: string, sep: char)
    requires Free(x, sep)
    ensures Split(x + [sep] + t, sep) == [x] + Split(t, sep)
  {
    if x == [] {
      assert x + [sep] + t == [sep] + t;
      assert ([sep] + t)[1..] == t;
    } else {
      SplitPrefix(x[1..], t, sep);
      assert (x + [sep] + t)[1..] == x[1..] + [sep] + t;
      assert [x[0]] + x[1..] == x;
    }
  }

  predicate AllDigits(s: string) {
    forall i :: 0 <= i < |s| ==> IsDigit(s[i])
  }

  /** Decimal value of a digit string. */
  function DigitsValue(s: string): nat
    requires AllDigits(s)
  {
    if s == [] then 0 else 10 * DigitsValue(s[..|s| - 1]) + (s[|s| - 1] as int - '0' as int)
  }

  /** Decimal rendering of a natural number, without leading zeros. */
  function NatToString(n: nat): (s: string)
    ensures s != [] && AllDigits(s)
    ensures Free(s, '.')
    decreases n
  {
    var d := [('0' as int + n % 10) as char];
    if n < 10 then d else NatToString(n / 10) + d
  }

  lemma {:induction false} DigitsValueOfNatToString(n: nat)
    ensures DigitsValue(NatToString(n)) == n
    decreases n
  {
    var s := NatToString(n);
    if n >= 10 {
      DigitsValueOfNatToString(n / 10);
      assert s[..|s| - 1] == NatToString(n / 10);
    }
  }

  /** go-version reads each segment with `strconv.ParseInt(segment, 10, 64)`,
      which rejects values from 2^63 up. */
  const SegmentLimit: nat := 0x8000_0000_0000_0000

  /** A dotted version string: one or more non-empty digit runs separated by
      single dots, each run's value fitting a signed 64-bit integer. */
  predicate IsDotted(s: string) {
    var parts := Split(s, '.');
    forall i :: 0 <= i < |parts| ==>
      parts[i] != [] && AllDigits(parts[i]) && DigitsValue(parts[i]) < SegmentLimit
  }

  /** Parse of a dotted version into its numeric segments; `None` for anything
      that is not dot-separated digit runs or has a segment too large for
      64 bits. */
  function Parse(s: string): (r: Option<seq<nat>>)
    ensures r.Some? <==> IsDotted(s)
    ensures r.Some? ==> |r.value| == |Split(s, '.')| >= 1
    ensures r.Some? ==> forall i :: 0 <= i < |r.value| ==> r.value[i] < SegmentLimit
  {
    var parts := Split(s, '.');
    if IsDotted(s) then Some(seq(|parts|, i requires 0 <= i < |parts| => DigitsValue(parts[i])))
    else None
  }

  /** Canonical rendering of segments, the partner of `Parse`. */
  function Format(v: seq<nat>): string {
    Join(seq(|v|, i requires 0 <= i < |v| => NatToString(v[i])), ".")
  }

  /** Parsing a rendered version gives back its segments. */
  lemma ParseFormat(v: seq<nat>)
    requires v != []
    requires forall i :: 0 <= i < |v| ==> v[i] < SegmentLimit
    ensures Parse(Format(v)) == Some(v)
  {
    var xs := seq(|v|, i requires 0 <= i < |v| => NatToString(v[i]));
    SplitJoin(xs, '.');
    assert Split(Format(v), '.') == xs;
    forall i | 0 <= i < |v| ensures DigitsValue(xs[i]) == v[i] {
      DigitsValueOfNatToString(v[i]);
    }
    assert IsDotted(Format(v));
    var r := Parse(Format(v));
    assert |r.value| == |v|;
    assert forall i :: 0 <= i < |v| ==> r.value[i] == DigitsValue(xs[i]);
    assert r.value == v;
  }

  /** A segment of 2^63 or more does not parse, whatever its value. */
  lemma OversizedSegmentRejected(n: nat)
    requires n >= SegmentLimit
    ensures Parse(NatToString(n)).None?
  {
    var s := NatToString(n);
    SplitFree(s, '.');
    DigitsValueOfNatToString(n);
    assert Split(s, '.')[0] == s;
    assert !IsDotted(s);
  }

  /** Segment `i`, reading a missing segment as 0. */
  function At(v: seq<nat>, i: nat): nat {
    if i < |v| then v[i] else 0
  }

  function Rest(v: seq<nat>): seq<nat> {
    if v == [] then [] else v[1..]
  }

  /** go-version `Compare`: -1, 0 or 1 after padding the shorter version
      with zero segments. */
  function Compare(a: seq<nat>, b: seq<nat>): (c: int)
    ensures -1 <= c <= 1
    decreases |a| + |b|
  {
    if a == [] && b == [] then 0
    else if At(a, 0) < At(b, 0) then -1
    else if At(a, 0) > At(b, 0) then 1
    else Compare(Rest(a), Rest(b))
  }

  /** go-version `GreaterThan`. */
  predicate GreaterThan(a: seq<nat>, b: seq<nat>) {
    Compare(a, b) == 1
  }

  /** Independent statement of the order: `a` exceeds `b` at the first
      segment where the zero-padded versions differ. */
  ghost predicate LexGreater(a: seq<nat>, b: seq<nat>) {
    exists i: nat :: (forall j: nat :: j < i ==> At(a, j) == At(b, j)) && At(a, i) > At(b, i)
  }

  lemma AtRest(v: seq<nat>, j: nat)
    ensures At(Rest(v), j) == At(v, j + 1)
  {
  }

  /** `GreaterThan` is exactly the lexicographic order on zero-padded segments. */
  lemma {:induction false} GreaterThanIsLex(a: seq<nat>, b: seq<nat>)
    ensures GreaterThan(a, b) <==> LexGreater(a, b)
    decreases |a| + |b|
  {
    if a == [] && b == [] {
    } else if At(a, 0) < At(b, 0) {
    } else if At(a, 0) > At(b, 0) {
      assert (forall j: nat :: j < 0 ==> At(a, j) == At(b, j)) && At(a, 0) > At(b, 0);
    } else {
      GreaterThanIsLex(Rest(a), Rest(b));
      if LexGreater(a, b) {
        var i: nat :| (forall j: nat :: j < i ==> At(a, j) == At(b, j)) && At(a, i) > At(b, i);
        assert i > 0;
        forall j: nat | j < i - 1 ensures At(Rest(a), j) == At(Rest(b), j) {
          AtRest(a, j); AtRest(b, j);
        }
        AtRest(a, i - 1); AtRest(b, i - 1);
        assert LexGreater(Rest(a), Rest(b));
      }
      if LexGreater(Rest(a), Rest(b)) {
        var i: nat :| (forall j: nat :: j < i ==> At(Rest(a), j) == At(Rest(b), j)) && At(Rest(a), i) > At(Rest(b), i);
        forall j: nat | j < i + 1 ensures At(a, j) == At(b, j) {
          if j > 0 { AtRest(a, j - 1); AtRest(b, j - 1); }
        }
        AtRest(a, i); AtRest(b, i);
        assert (forall j: nat :: j < i + 1 ==> At(a, j) == At(b, j)) && At(a, i + 1) > At(b, i + 1);
      }
    }
  }

  /** Swapping the operands negates the comparison. */
  lemma {:induction false} CompareAntisymmetric(a: seq<nat>, b: seq<nat>)
    ensures Compare(a, b) == -Compare(b, a)
    decreases |a| + |b|
  {
    if !(a == [] && b == []) && At(a, 0) == At(b, 0) {
      CompareAntisymmetric(Rest(a), Rest(b));
    }
  }

  /** A version is never greater than itself. */
  lemma {:induction false} CompareReflexive(a: seq<nat>)
    ensures Compare(a, a) == 0
    decreases |a|
  {
    if a != [] {
      CompareReflexive(Rest(a));
    }
  }

  /** `GreaterThan` is transitive. */
  lemma {:induction false} GreaterThanTransitive(a: seq<nat>, b: seq<nat>, c: seq<nat>)
    requires GreaterThan(a, b) && GreaterThan(b, c)
    ensures GreaterThan(a, c)
    decreases |a| + |b| + |c|
  {
    if At(a, 0) == At(b, 0) && At(b, 0) == At(c, 0) {
      GreaterThanTransitive(Rest(a), Rest(b), Rest(c));
    } else if At(a, 0) == At(b, 0) {
      assert !(b == [] && c == []);
    } else {
      assert !(a == [] && b == []);
    }
  }

  /** Trailing zero segments do not change a version's place in the order. */
  lemma {:induction false} TrailingZeroIgnored(a: seq<nat>, b: seq<nat>)
    ensures Compare(a + [0], b) == Compare(a, b)
    decreases |a| + |b|
  {
    if a == [] {
      assert a + [0] == [0];
      ZeroAgainst(b);
    } else if At(a, 0) == At(b, 0) {
      assert Rest(a + [0]) == Rest(a) + [0];
      TrailingZeroIgnored(Rest(a), Rest(b));
    }
  }

  lemma {:induction false} ZeroAgainst(b: seq<nat>)
    ensures Compare([0], b) == Compare([], b)
    decreases |b|
  {
    if b != [] && At(b, 0) == 0 {
      assert Rest([0]) == [];
    }
  }
}
