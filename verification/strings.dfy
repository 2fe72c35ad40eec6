/** String operations the application relies on, over `string = seq<char>`:
    ASCII digit classes, decimal rendering of numbers, the
    `split('/').pop()` idiom, `indexOf`/`includes`/`startsWith`/`replace`
    with a plain string pattern, and ASCII lower-casing. */
module Strings {
  import opened Common

  predicate IsDigit(c: char) {
    '0' <= c <= '9'
  }

  predicate AllDigits(s: string) {
    forall i :: 0 <= i < |s| ==> IsDigit(s[i])
  }

  /** The regular-expression class `\w` (no `u` flag): ASCII letters, digits and `_`. */
  predicate IsWordChar(c: char) {
    ('a' <= c <= 'z') || ('A' <= c <= 'Z') || IsDigit(c) || c == '_'
  }

  function DigitValue(c: char): (d: nat)
    requires IsDigit(c)
    ensures d < 10
  {
    (c as int) - ('0' as int)
  }

  function DigitChar(d: nat): (c: char)
    requires d < 10
    ensures IsDigit(c) && DigitValue(c) == d
  {
    (('0' as int) + d) as char
  }

  /** The value of a string of decimal digits, most significant first. */
  function DigitsValue(s: string): nat
    requires AllDigits(s)
  {
    if |s| == 0 then 0 else DigitsValue(s[..|s| - 1]) * 10 + DigitValue(s[|s| - 1])
  }

  /** `String(n)` for a non-negative integer: shortest decimal numeral. */
  function NatToString(n: nat): (r: string)
    ensures |r| >= 1 && AllDigits(r)
    ensures DigitsValue(r) == n
    ensures r[0] != '0' || r == "0"
    decreases n
  {
    if n < 10 then [DigitChar(n)]
    else
      var hi := NatToString(n / 10);
      var r := hi + [DigitChar(n % 10)];
      assert r[..|r| - 1] == hi;
      r
  }

  /** `String(i)` for any integer (a `-` sign for negatives). */
  function IntToString(i: int): (r: string)
    ensures |r| >= 1
    ensures i >= 0 ==> r == NatToString(i)
    ensures i < 0 ==> r[0] == '-' && r[1..] == NatToString(-i)
  {
    if i < 0 then "-" + NatToString(-i) else NatToString(i)
  }

  /** Decimal rendering is injective: distinct numbers print differently. */
  lemma NatToStringInjective(m: nat, n: nat)
    requires NatToString(m) == NatToString(n)
    ensures m == n
  {
  }

  /** `s.split('/').pop()`: the text after the last `/`, or all of `s`
      when it contains none (an empty string when `s` ends with `/`). */
  function LastSegment(s: string): (r: string)
    ensures '/' !in r
    ensures |r| <= |s| && r == s[|s| - |r|..]
    ensures |r| < |s| ==> s[|s| - |r| - 1] == '/'
  {
    if |s| == 0 then ""
    else if s[|s| - 1] == '/' then ""
    else
      var init := s[..|s| - 1];
      var r := LastSegment(init) + [s[|s| - 1]];
      assert r == s[|s| - |r|..];
      r
  }

  /** The segment after a `/` that is followed by no further `/` is the last segment. */
  lemma LastSegmentAfter(s: string, i: nat)
    requires i < |s| && s[i] == '/' && '/' !in s[i + 1..]
    ensures LastSegment(s) == s[i + 1..]
  {
    var r := LastSegment(s);
  }

  /** A string with no `/` is its own last segment. */
  lemma LastSegmentNoSlash(s: string)
    requires '/' !in s
    ensures LastSegment(s) == s
  {
    var r := LastSegment(s);
  }

  /** `pat` occurs in `s` starting at position `i`. */
  predicate MatchAt(s: string, pat: string, i: int) {
    0 <= i && i + |pat| <= |s| && s[i..i + |pat|] == pat
  }

  /** `s.indexOf(pat, k)`, with `None` for JavaScript's `-1`. */
  function IndexFrom(s: string, pat: string, k: nat): (r: Option<nat>)
    ensures r.Some? ==> k <= r.value && MatchAt(s, pat, r.value)
    ensures r.Some? ==> forall j :: k <= j < r.value ==> !MatchAt(s, pat, j)
    ensures r.None? ==> forall j :: k <= j ==> !MatchAt(s, pat, j)
    decreases |s| - k
  {
    if k + |pat| > |s| then None
    else if s[k..k + |pat|] == pat then Some(k)
    else IndexFrom(s, pat, k + 1)
  }

  function IndexOf(s: string, pat: string): (r: Option<nat>)
    ensures r.Some? ==> MatchAt(s, pat, r.value) && forall j :: 0 <= j < r.value ==> !MatchAt(s, pat, j)
    ensures r.None? ==> forall j :: !MatchAt(s, pat, j)
  {
    IndexFrom(s, pat, 0)
  }

  /** `s.includes(pat)`: `pat` occurs somewhere in `s` (the empty pattern always does). */
  function Includes(s: string, pat: string): (b: bool)
    ensures b <==> exists i :: MatchAt(s, pat, i)
  {
    assert MatchAt(s, pat, 0) ==> IndexOf(s, pat).Some?;
    IndexOf(s, pat).Some?
  }

  predicate StartsWith(s: string, prefix: string) {
    |prefix| <= |s| && s[..|prefix|] == prefix
  }

  /** `s.replace(pat, rep)` with a string pattern: only the first occurrence is replaced. */
  function ReplaceFirst(s: string, pat: string, rep: string): string {
    match IndexOf(s, pat)
    case None => s
    case Some(i) => s[..i] + rep + s[i + |pat|..]
  }

  /** `toLowerCase` restricted to ASCII letters. */
  function LowerChar(c: char): char {
    if 'A' <= c <= 'Z' then ((c as int) + 32) as char else c
  }

  predicate IsUpperAscii(c: char) {
    'A' <= c <= 'Z'
  }

  function ToLower(s: string): (r: string)
    ensures |r| == |s|
    ensures forall i :: 0 <= i < |r| ==> r[i] == LowerChar(s[i]) && !IsUpperAscii(r[i])
  {
    if |s| == 0 then "" else [LowerChar(s[0])] + ToLower(s[1..])
  }

  /** Lower-casing twice is lower-casing once. */
  lemma ToLowerIdempotent(s: string)
    ensures ToLower(ToLower(s)) == ToLower(s)
  {
  }
}
