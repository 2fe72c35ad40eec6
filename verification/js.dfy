/** The JavaScript built-ins whose exact behaviour the application's logic
    depends on: the white-space class used by `trim` and `parseInt`, the
    truncating remainder operator `%`, and `parseInt` without a radix. */
module Js {
  import opened Common
  import opened Strings

  /** WhiteSpace and LineTerminator code points of the ECMAScript grammar
      (section 12.2 and 12.3 of ECMA-262). */
  predicate IsWhitespace(c: char) {
    c == '\t' || c == '\n' || c == '\U{000B}' || c == '\U{000C}' || c == '\r' || c == ' '
    || c == '\U{00A0}' || c == '\U{1680}' || ('\U{2000}' <= c <= '\U{200A}')
    || c == '\U{2028}' || c == '\U{2029}' || c == '\U{202F}' || c == '\U{205F}'
    || c == '\U{3000}' || c == '\U{FEFF}'
  }

  predicate AllWhitespace(s: string) {
    forall i :: 0 <= i < |s| ==> IsWhitespace(s[i])
  }

  /** `s.trimStart()`: drop the leading white space. */
  function TrimStart(s: string): (r: string)
    ensures |r| <= |s| && r == s[|s| - |r|..]
    ensures AllWhitespace(s[..|s| - |r|])
    ensures r == "" || !IsWhitespace(r[0])
  {
    if |s| == 0 || !IsWhitespace(s[0]) then s
    else
      var r := TrimStart(s[1..]);
      var k := |s| - |r|;
      assert s[..k] == [s[0]] + s[1..][..k - 1];
      WhitespaceConcat([s[0]], s[1..][..k - 1]);
      r
  }

  lemma WhitespaceConcat(a: string, b: string)
    requires AllWhitespace(a) && AllWhitespace(b)
    ensures AllWhitespace(a + b)
  {
    forall i | 0 <= i < |a + b| ensures IsWhitespace((a + b)[i]) {
      if i >= |a| {
        assert (a + b)[i] == b[i - |a|];
      }
    }
  }

  /** `s.trimEnd()`: drop the trailing white space. */
  function TrimEnd(s: string): (r: string)
    ensures |r| <= |s| && r == s[..|r|]
    ensures AllWhitespace(s[|r|..])
    ensures r == "" || !IsWhitespace(r[|r| - 1])
  {
    if |s| == 0 || !IsWhitespace(s[|s| - 1]) then s
    else
      var r := TrimEnd(s[..|s| - 1]);
      assert s[|r|..] == s[..|s| - 1][|r|..] + [s[|s| - 1]];
      WhitespaceConcat(s[..|s| - 1][|r|..], [s[|s| - 1]]);
      r
  }

  /** `s.trim()`: the longest slice of `s` that neither starts nor ends with white space,
      with only white space cut away on either side. */
  function Trim(s: string): (r: string)
    ensures exists a :: (0 <= a <= |s| - |r| && r == s[a..a + |r|]
                         && AllWhitespace(s[..a]) && AllWhitespace(s[a + |r|..]))
    ensures r == "" || (!IsWhitespace(r[0]) && !IsWhitespace(r[|r| - 1]))
  {
    var t := TrimStart(s);
    var r := TrimEnd(t);
    TrimSlices(s, t, r);
    r
  }

  lemma TrimSlices(s: string, t: string, r: string)
    requires |t| <= |s| && t == s[|s| - |t|..] && AllWhitespace(s[..|s| - |t|])
    requires |r| <= |t| && r == t[..|r|] && AllWhitespace(t[|r|..])
    requires t == "" || !IsWhitespace(t[0])
    ensures exists a :: (0 <= a <= |s| - |r| && r == s[a..a + |r|]
                         && AllWhitespace(s[..a]) && AllWhitespace(s[a + |r|..]))
    ensures r != "" ==> r[0] == t[0]
  {
    var a := |s| - |t|;
    assert r == s[a..a + |r|];
    assert s[a + |r|..] == t[|r|..];
  }

  /** A string that does not start with white space is unchanged by `trimStart`. */
  lemma TrimStartNoop(s: string)
    requires s == "" || !IsWhitespace(s[0])
    ensures TrimStart(s) == s
  {
  }

  function Abs(b: int): nat {
    if b < 0 then -b else b
  }

  /** JavaScript `a % b`: the remainder of division truncated toward zero,
      whose sign follows the dividend (Dafny's own `%` is Euclidean). */
  function Rem(a: int, b: int): (r: int)
    requires b != 0
    ensures a >= 0 ==> 0 <= r < Abs(b)
    ensures a < 0 ==> 0 - Abs(b) < r <= 0
    ensures Abs(r) == Abs(a) % Abs(b)
  {
    if a >= 0 then a % Abs(b) else -((-a) % Abs(b))
  }

  predicate IsHexDigit(c: char) {
    IsDigit(c) || ('a' <= c <= 'f') || ('A' <= c <= 'F')
  }

  function HexDigitValue(c: char): (d: nat)
    requires IsHexDigit(c)
    ensures d < 16
  {
    if IsDigit(c) then DigitValue(c)
    else if 'a' <= c <= 'f' then (c as int) - ('a' as int) + 10
    else (c as int) - ('A' as int) + 10
  }

  function HexValue(s: string): nat
    requires forall i :: 0 <= i < |s| ==> IsHexDigit(s[i])
  {
    if |s| == 0 then 0 else HexValue(s[..|s| - 1]) * 16 + HexDigitValue(s[|s| - 1])
  }

  /** Length of the longest prefix of decimal digits. */
  function DigitRun(s: string): (k: nat)
    ensures k <= |s| && AllDigits(s[..k])
    ensures k < |s| ==> !IsDigit(s[k])
  {
    if |s| == 0 || !IsDigit(s[0]) then 0
    else
      var k := 1 + DigitRun(s[1..]);
      assert s[..k] == [s[0]] + s[1..][..k - 1];
      k
  }

  /** Length of the longest prefix of hexadecimal digits. */
  function HexRun(s: string): (k: nat)
    ensures k <= |s| && forall i :: 0 <= i < k ==> IsHexDigit(s[i])
    ensures k < |s| ==> !IsHexDigit(s[k])
  {
    if |s| == 0 || !IsHexDigit(s[0]) then 0 else 1 + HexRun(s[1..])
  }

  /** The digits after the sign: a `0x`/`0X` prefix selects base 16, and the
      longest run of digits that follows is read; no digit at all is `NaN`. */
  function ParseUnsigned(u: string): Option<nat> {
    if |u| >= 2 && u[0] == '0' && (u[1] == 'x' || u[1] == 'X') then
      var h := HexRun(u[2..]);
      if h == 0 then None else Some(HexValue(u[2..][..h]))
    else
      var d := DigitRun(u);
      if d == 0 then None else Some(DigitsValue(u[..d]))
  }

  /** `parseInt(s)` with no radix argument; `None` is `NaN`. Leading white
      space is skipped and one `+` or `-` sign is accepted before the digits. */
  function ParseInt(s: string): (r: Option<int>)
    ensures var t := TrimStart(s);
      && (t == "" ==> r.None?)
      && (t != "" && !IsDigit(t[0]) && t[0] != '-' && t[0] != '+' ==> r.None?)
      && (r.Some? && r.value < 0 ==> t[0] == '-')
  {
    var t := TrimStart(s);
    SignedNaN(t);
    Signed(t)
  }

  /** Text that is empty or starts with neither a digit nor a sign is `NaN`,
      and only a leading `-` gives a negative number. */
  lemma SignedNaN(t: string)
    ensures t == "" ==> Signed(t).None?
    ensures t != "" && !IsDigit(t[0]) && t[0] != '-' && t[0] != '+' ==> Signed(t).None?
    ensures Signed(t).Some? && Signed(t).value < 0 ==> t[0] == '-'
  {
    if t == "" || (!IsDigit(t[0]) && t[0] != '-' && t[0] != '+') {
      UnsignedNaN(t);
    }
  }

  /** Without a leading digit there is nothing to read. */
  lemma UnsignedNaN(u: string)
    requires u == "" || !IsDigit(u[0])
    ensures ParseUnsigned(u).None?
  {
  }

  /** The reading of the text after the white space: an optional sign, then
      the unsigned digits. */
  function Signed(t: string): Option<int> {
    if |t| > 0 && t[0] == '-' then Negated(ParseUnsigned(t[1..]))
    else if |t| > 0 && t[0] == '+' then AsInt(ParseUnsigned(t[1..]))
    else AsInt(ParseUnsigned(t))
  }

  function AsInt(o: Option<nat>): Option<int> {
    match o
    case None => None
    case Some(m) => Some(m as int)
  }

  function Negated(o: Option<nat>): Option<int> {
    match o
    case None => None
    case Some(m) => Some(-(m as int))
  }

  /** A numeral without leading zero (or `0` itself) followed by text that
      neither continues the digits nor forms a hexadecimal prefix reads back
      as its value. */
  lemma ParseUnsignedOfNumeral(m: nat, rest: string)
    requires rest == "" || !IsDigit(rest[0])
    requires m == 0 && rest != "" ==> rest[0] != 'x' && rest[0] != 'X'
    ensures ParseUnsigned(NatToString(m) + rest) == Some(m)
  {
    var digits := NatToString(m);
    var u := digits + rest;
    DigitRunOfNumeral(digits, rest);
    assert u[..|digits|] == digits;
    if |u| >= 2 && u[0] == '0' {
      assert digits == "0";
      assert u[1] == rest[0];
    }
  }

  /** A non-empty string of decimal digits reads as its decimal value. */
  lemma ParseUnsignedOfDigits(y: string)
    requires |y| >= 1 && AllDigits(y)
    ensures ParseUnsigned(y) == Some(DigitsValue(y))
  {
    DigitRunOfNumeral(y, "");
    assert y + "" == y;
    assert y[..|y|] == y;
    if |y| >= 2 {
      assert IsDigit(y[1]);
    }
  }

  lemma ParseIntOfDigits(y: string)
    requires |y| >= 1 && AllDigits(y)
    ensures ParseInt(y) == Some(DigitsValue(y))
  {
    assert IsDigit(y[0]);
    ParseUnsignedOfDigits(y);
    ParseIntDigitFirst(y, DigitsValue(y));
  }

  /** A run of digits followed by a non-digit reads as the digits alone. */
  lemma {:induction false} DigitRunOfNumeral(a: string, rest: string)
    requires AllDigits(a)
    requires rest == "" || !IsDigit(rest[0])
    ensures DigitRun(a + rest) == |a|
  {
    if |a| > 0 {
      assert (a + rest)[1..] == a[1..] + rest;
      DigitRunOfNumeral(a[1..], rest);
    } else {
      assert a + rest == rest;
    }
  }

  /** `parseInt` of a string with no leading white space and a leading `-` is
      the negation of what follows the sign. */
  lemma ParseIntNegative(s: string, m: nat)
    requires |s| > 0 && s[0] == '-'
    requires ParseUnsigned(s[1..]) == Some(m)
    ensures ParseInt(s) == Some(-(m as int))
  {
    TrimStartNoop(s);
  }

  /** `parseInt` of a string that starts with a digit is its unsigned reading. */
  lemma ParseIntDigitFirst(s: string, m: nat)
    requires |s| > 0 && IsDigit(s[0])
    requires ParseUnsigned(s) == Some(m)
    ensures ParseInt(s) == Some(m as int)
  {
    TrimStartNoop(s);
  }

  /** `parseInt` reads back what `String` printed, whatever non-digit text
      follows (as long as a printed `0` is not followed by an `x`, which
      would make it a hexadecimal prefix). */
  lemma ParseIntOfNumeral(n: int, rest: string)
    requires rest == "" || !IsDigit(rest[0])
    requires n == 0 && rest != "" ==> rest[0] != 'x' && rest[0] != 'X'
    ensures ParseInt(IntToString(n) + rest) == Some(n)
  {
    if n < 0 {
      ParseIntOfNegative(n, rest);
    } else {
      ParseIntOfNonNegative(n, rest);
    }
  }

  lemma ParseIntOfNegative(n: int, rest: string)
    requires n < 0
    requires rest == "" || !IsDigit(rest[0])
    ensures ParseInt(IntToString(n) + rest) == Some(n)
  {
    var s := IntToString(n) + rest;
    NegativeNumeral(n, rest);
    ParseUnsignedOfNumeral(-n, rest);
    ParseIntNegative(s, -n);
  }

  /** The printed negative number is a minus sign before its magnitude. */
  lemma NegativeNumeral(n: int, rest: string)
    requires n < 0
    ensures |IntToString(n) + rest| > 0 && (IntToString(n) + rest)[0] == '-'
    ensures (IntToString(n) + rest)[1..] == NatToString(-n) + rest
  {
    var d := NatToString(-n);
    assert IntToString(n) == "-" + d;
    assert IntToString(n) + rest == "-" + (d + rest);
  }

  lemma ParseIntOfNonNegative(n: int, rest: string)
    requires n >= 0
    requires rest == "" || !IsDigit(rest[0])
    requires n == 0 && rest != "" ==> rest[0] != 'x' && rest[0] != 'X'
    ensures ParseInt(IntToString(n) + rest) == Some(n)
  {
    var s := IntToString(n) + rest;
    assert s[0] == NatToString(n)[0];
    ParseUnsignedOfNumeral(n, rest);
    ParseIntDigitFirst(s, n);
  }
}
