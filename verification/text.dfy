/**
 * The pieces of Rust's `str` API the modelled code relies on: `trim`, `lines`,
 * `find`, `to_lowercase` and integer formatting. A Dafny `char` is a Unicode
 * scalar value, exactly what `str::chars` yields, so character counts agree
 * with the Rust code.
 */
module Text {
  import opened Base

  /** Unicode White_Space, the class `char::is_whitespace` and `str::trim` use. */
  predicate IsWhitespace(c: char) {
    || ('\t' <= c <= '\r')
    || c == ' '
    || c == '\U{0085}'
    || c == '\U{00A0}'
    || c == '\U{1680}'
    || ('\U{2000}' <= c <= '\U{200A}')
    || c == '\U{2028}'
    || c == '\U{2029}'
    || c == '\U{202F}'
    || c == '\U{205F}'
    || c == '\U{3000}'
  }

  /** Every character of `s` from index `lo` up to (not including) `hi` is whitespace. */
  predicate WhitespaceBetween(s: string, lo: int, hi: int) {
    forall i :: lo <= i < hi && 0 <= i < |s| ==> IsWhitespace(s[i])
  }

  predicate AllWhitespace(s: string) {
    WhitespaceBetween(s, 0, |s|)
  }

  /** The first index at or after `k` that does not hold whitespace (`|s|` when there is none). */
  function SkipWhitespace(s: string, k: nat): (n: nat)
    requires k <= |s|
    ensures k <= n <= |s|
    ensures forall i :: k <= i < n ==> IsWhitespace(s[i])
    ensures n < |s| ==> !IsWhitespace(s[n])
    decreases |s| - k
  {
    if k < |s| && IsWhitespace(s[k]) then SkipWhitespace(s, k + 1) else k
  }

  /** The smallest `n` such that `s[n..k]` is all whitespace. */
  function SkipWhitespaceBack(s: string, k: nat): (n: nat)
    requires k <= |s|
    ensures n <= k
    ensures forall i :: n <= i < k ==> IsWhitespace(s[i])
    ensures n > 0 ==> !IsWhitespace(s[n - 1])
  {
    if k > 0 && IsWhitespace(s[k - 1]) then SkipWhitespaceBack(s, k - 1) else k
  }

  /**
   * `str::trim`: `s` without its leading and trailing whitespace. The
   * result is the part of `s` between two all-whitespace ends, and it
   * neither starts nor ends with whitespace.
   */
  function Trim(s: string): (r: string)
    ensures |r| <= |s|
    ensures r == [] <==> AllWhitespace(s)
    ensures r != [] ==> !IsWhitespace(r[0]) && !IsWhitespace(r[|r| - 1])
    ensures exists a :: TrimmedPart(s, r, a)
  {
    var a := SkipWhitespace(s, 0);
    if a == |s| then
      TrimAllWhitespace(s);
      []
    else
      var b := SkipWhitespaceBack(s, |s|);
      TrimInner(s, a, b);
      s[a..b]
  }

  /** `r` is the part of `s` at index `a`, with only whitespace before and after it. */
  predicate TrimmedPart(s: string, r: string, a: int) {
    0 <= a <= |s| - |r| && r == s[a..a + |r|] && WhitespaceBetween(s, 0, a) && WhitespaceBetween(s, a + |r|, |s|)
  }

  /** When `s` is all whitespace, trimming leaves nothing. */
  lemma TrimAllWhitespace(s: string)
    requires WhitespaceBetween(s, 0, |s|)
    ensures TrimmedPart(s, [], 0)
  {
  }

  /**
   * When `s[a]` is the first non-whitespace character and `s[b..]` the
   * trailing whitespace, `s[a..b]` is the trimmed part.
   */
  lemma TrimInner(s: string, a: nat, b: nat)
    requires a < |s| && !IsWhitespace(s[a]) && WhitespaceBetween(s, 0, a)
    requires b <= |s| && WhitespaceBetween(s, b, |s|) && (b > 0 ==> !IsWhitespace(s[b - 1]))
    ensures a < b
    ensures !AllWhitespace(s)
    ensures !IsWhitespace(s[b - 1])
    ensures TrimmedPart(s, s[a..b], a)
  {
    assert a + |s[a..b]| == b;
  }

  /** Trimming a trimmed string changes nothing. */
  lemma TrimIdempotent(s: string)
    ensures Trim(Trim(s)) == Trim(s)
  {
    var r := Trim(s);
    if r != [] {
      assert SkipWhitespace(r, 0) == 0;
      assert SkipWhitespaceBack(r, |r|) == |r|;
      assert r[0..|r|] == r;
    }
  }

  predicate StartsWith(s: string, prefix: string) {
    |prefix| <= |s| && s[..|prefix|] == prefix
  }

  predicate EndsWith(s: string, suffix: string) {
    |suffix| <= |s| && s[|s| - |suffix|..] == suffix
  }

  lemma StartsWithConcat(a: string, b: string)
    ensures StartsWith(a + b, a)
  {
    assert (a + b)[..|a|] == a;
  }

  lemma EndsWithConcat(a: string, b: string)
    ensures EndsWith(a + b, b)
  {
    assert (a + b)[|a|..] == b;
  }

  lemma ConcatAssoc(a: string, b: string, c: string)
    ensures a + (b + c) == a + b + c
  {
  }

  /** `pat` occurs in `s` starting at character index `k`. */
  predicate OccursAt(s: string, pat: string, k: int) {
    0 <= k && k + |pat| <= |s| && s[k..k + |pat|] == pat
  }

  predicate Contains(s: string, pat: string) {
    exists k :: 0 <= k <= |s| && OccursAt(s, pat, k)
  }

  /**
   * A string splits at most one way around the first `c`: when neither
   * front part holds `c`, the fronts agree and so do the backs.
   */
  lemma SplitAtFirst(x: string, y: string, x2: string, y2: string, c: char)
    requires c !in x && c !in x2
    requires x + [c] + y == x2 + [c] + y2
    ensures x == x2 && y == y2
  {
    var s := x + [c] + y;
    FirstMark(x, y, c);
    FirstMark(x2, y2, c);
    assert s[|x|] == c && s[|x2|] == c;
    assert x == s[..|x|] && x2 == s[..|x2|];
    assert y == s[|x| + 1..] && y2 == s[|x2| + 1..];
  }

  /** In `x + [c] + y` with no `c` in `x`, the first `c` is at index `|x|`. */
  lemma FirstMark(x: string, y: string, c: char)
    requires c !in x
    ensures (x + [c] + y)[|x|] == c
    ensures forall i :: 0 <= i < |x| ==> (x + [c] + y)[i] != c
  {
    forall i | 0 <= i < |x|
      ensures (x + [c] + y)[i] != c
    {
      assert (x + [c] + y)[i] == x[i];
    }
  }

  /** The first occurrence of `pat` in `s` at or after index `from`. */
  function FindFrom(s: string, pat: string, from: nat): (r: Option<nat>)
    ensures r.Some? ==> from <= r.value && OccursAt(s, pat, r.value)
    ensures r.Some? ==> forall k :: from <= k < r.value ==> !OccursAt(s, pat, k)
    ensures r.None? ==> forall k :: from <= k ==> !OccursAt(s, pat, k)
    decreases |s| - from
  {
    if from + |pat| > |s| then None
    else if s[from..from + |pat|] == pat then Some(from)
    else FindFrom(s, pat, from + 1)
  }

  /**
   * `str::find` with a string pattern. It reports a character index; the
   * Rust code works with byte offsets, which name the same position because
   * every pattern searched for is ASCII.
   */
  function Find(s: string, pat: string): (r: Option<nat>)
    ensures r.Some? ==> OccursAt(s, pat, r.value)
    ensures r.Some? ==> forall k :: 0 <= k < r.value ==> !OccursAt(s, pat, k)
    ensures r.None? <==> !Contains(s, pat)
  {
    FindFrom(s, pat, 0)
  }

  /** `Find` reports the first occurrence. */
  lemma FindFirst(s: string, pat: string, start: nat)
    requires OccursAt(s, pat, start)
    requires forall k :: 0 <= k < start ==> !OccursAt(s, pat, k)
    ensures Find(s, pat) == Some(start)
  {
    assert Contains(s, pat);
  }

  /** An occurrence at the start of `s[k..]` is an occurrence at `k` in `s`. */
  lemma OccursAtShift(s: string, k: nat, pat: string)
    requires k <= |s| && OccursAt(s[k..], pat, 0)
    ensures OccursAt(s, pat, k)
  {
    assert s[k..][0..|pat|] == s[k..k + |pat|];
  }

  /** Splits at every `sep`; the pieces joined by `sep` give back `s`. */
  function Split(s: string, sep: char): (r: seq<string>)
    ensures |r| >= 1
    decreases |s|
  {
    if |s| == 0 then [""]
    else
      var rest := Split(s[1..], sep);
      if s[0] == sep then [""] + rest
      else [[s[0]] + rest[0]] + rest[1..]
  }

  function Join(parts: seq<string>, sep: string): string
  {
    if |parts| == 0 then ""
    else if |parts| == 1 then parts[0]
    else parts[0] + sep + Join(parts[1..], sep)
  }

  /** Splitting loses nothing: the pieces joined by the separator give back `s`. */
  lemma {:induction false} SplitJoin(s: string, sep: char)
    ensures Join(Split(s, sep), [sep]) == s
    decreases |s|
  {
    if |s| > 0 {
      var rest := Split(s[1..], sep);
      SplitJoin(s[1..], sep);
      assert s == [s[0]] + s[1..];
      if s[0] == sep {
        JoinAfterEmpty(rest, sep);
      } else {
        JoinExtendFirst(s[0], rest, sep);
      }
    }
  }

  /** Joining an empty piece in front adds one separator in front. */
  lemma JoinAfterEmpty(parts: seq<string>, sep: char)
    requires |parts| >= 1
    ensures Join([""] + parts, [sep]) == [sep] + Join(parts, [sep])
  {
    assert ([""] + parts)[1..] == parts;
  }

  /** Joining with `c` put in front of the first piece puts `c` in front of the join. */
  lemma JoinExtendFirst(c: char, parts: seq<string>, sep: char)
    requires |parts| >= 1
    ensures Join([[c] + parts[0]] + parts[1..], [sep]) == [c] + Join(parts, [sep])
  {
    var r := [[c] + parts[0]] + parts[1..];
    if |parts| > 1 {
      assert r[1..] == parts[1..];
      ConcatAssoc([c], parts[0], [sep]);
      ConcatAssoc([c], parts[0] + [sep], Join(parts[1..], [sep]));
    }
  }

  /** No piece of a split holds the separator. */
  lemma {:induction false} SplitPiecesHaveNoSeparator(s: string, sep: char)
    ensures forall i :: 0 <= i < |Split(s, sep)| ==> sep !in Split(s, sep)[i]
    decreases |s|
  {
    if |s| > 0 {
      var rest := Split(s[1..], sep);
      SplitPiecesHaveNoSeparator(s[1..], sep);
      var r := Split(s, sep);
      if s[0] == sep {
        assert r == [""] + rest;
        forall i | 1 <= i < |r| ensures sep !in r[i] {
          assert r[i] == rest[i - 1];
        }
      } else {
        assert r == [[s[0]] + rest[0]] + rest[1..];
        forall i | 1 <= i < |r| ensures sep !in r[i] {
          assert r[i] == rest[i];
        }
      }
    }
  }

  /** The lines of `s`, split at `'\n'` (see the notes on `str::lines` in the README). */
  function Lines(s: string): seq<string> {
    Split(s, '\n')
  }

  /** ASCII case mapping of `char::to_lowercase`. */
  function LowerChar(c: char): char {
    if 'A' <= c <= 'Z' then (c as int + 32) as char else c
  }

  function ToLower(s: string): (r: string)
    ensures |r| == |s|
    ensures forall i :: 0 <= i < |s| ==> r[i] == LowerChar(s[i])
  {
    seq(|s|, i requires 0 <= i < |s| => LowerChar(s[i]))
  }

  predicate IsDigit(c: char) {
    '0' <= c <= '9'
  }

  predicate AllDigits(s: string) {
    forall i :: 0 <= i < |s| ==> IsDigit(s[i])
  }

  /** Decimal digits, optionally after one `-`. */
  predicate IsDecimal(s: string) {
    if |s| > 0 && s[0] == '-' then |s| > 1 && AllDigits(s[1..]) else |s| > 0 && AllDigits(s)
  }

  /** The character of digit `d`. */
  function DigitChar(d: nat): (c: char)
    requires d < 10
    ensures IsDigit(c) && DigitValue(c) == d
  {
    ('0' as int + d) as char
  }

  /** The value of one decimal digit. */
  function DigitValue(c: char): int {
    c as int - '0' as int
  }

  /** The number a string of decimal digits denotes, read most significant digit first. */
  function NatValue(s: string): int {
    if |s| == 0 then 0 else NatValue(s[..|s| - 1]) * 10 + DigitValue(s[|s| - 1])
  }

  /** The number a decimal string denotes, negated after a leading `-`. */
  function IntValue(s: string): int {
    if |s| > 0 && s[0] == '-' then -NatValue(s[1..]) else NatValue(s)
  }

  /** The decimal digits of `n`, without leading zeros. */
  function NatToString(n: nat): (r: string)
    ensures |r| > 0 && AllDigits(r)
    ensures n > 0 ==> r[0] != '0'
    decreases n
  {
    if n < 10 then [DigitChar(n)] else NatToString(n / 10) + [DigitChar(n % 10)]
  }

  /** Reading the digits of `n` back gives `n`. */
  lemma {:induction false} NatToStringRoundTrip(n: nat)
    ensures NatValue(NatToString(n)) == n
    decreases n
  {
    var r := NatToString(n);
    if n < 10 {
      assert r[..0] == [];
    } else {
      NatToStringRoundTrip(n / 10);
      assert r[..|r| - 1] == NatToString(n / 10);
    }
  }

  /** The `Display` rendering of an integer: decimal digits with a leading `-` when negative. */
  function IntToString(n: int): (r: string)
    ensures IsDecimal(r)
    ensures n < 0 <==> r[0] == '-'
    ensures n == 0 ==> r == "0"
    ensures n != 0 ==> r[if n < 0 then 1 else 0] != '0'
  {
    if n < 0 then
      var digits := NatToString(-n);
      assert ("-" + digits)[1..] == digits;
      "-" + digits
    else NatToString(n)
  }

  /** A decimal rendering holds only digits and `-`. */
  lemma DecimalLacks(s: string, c: char)
    requires IsDecimal(s) && c != '-' && !IsDigit(c)
    ensures c !in s
  {
  }

  /** Reading the rendering of `n` back gives `n`, so different integers render differently. */
  lemma IntToStringRoundTrip(n: int)
    ensures IntValue(IntToString(n)) == n
  {
    var r := IntToString(n);
    if n < 0 {
      var digits := NatToString(-n);
      assert r == "-" + digits;
      assert r[1..] == digits;
      NatToStringRoundTrip(-n);
    } else {
      assert r == NatToString(n);
      assert IsDigit(r[0]);
      NatToStringRoundTrip(n);
    }
  }
}
