/** Derived-field helpers of the person view: the year of a date string, a
    person's age, and the English ordinal of a birth order
    (`modules/utils.js`, duplicated in `app.js`, and the tree builder's own
    year extraction in `modules/FamilyTreeService.js`). */
module Dates {
  import opened Common
  import opened Strings
  import opened Js

  /** The pattern `\b(\d{4})\b` matches at position `i`: four digits with a
      word boundary on each side (the start and end of the string count). */
  predicate YearAt(s: string, i: int) {
    && 0 <= i && i + 4 <= |s|
    && AllDigits(s[i..i + 4])
    && (i == 0 || !IsWordChar(s[i - 1]))
    && (i + 4 == |s| || !IsWordChar(s[i + 4]))
  }

  /** Leftmost position at or after `k` where the year pattern matches. */
  function FindYear(s: string, k: nat): (r: Option<nat>)
    ensures r.Some? ==> k <= r.value && YearAt(s, r.value)
    ensures r.Some? ==> forall j :: k <= j < r.value ==> !YearAt(s, j)
    ensures r.None? ==> forall j :: k <= j ==> !YearAt(s, j)
    decreases |s| - k
  {
    if k + 4 > |s| then None
    else if YearAt(s, k) then Some(k)
    else FindYear(s, k + 1)
  }

  /** `dateString.match(/\b(\d{4})\b/)` and its first group, or `null`; the
      tree builder's `_extractYear`. */
  function WordYear(s: string): (r: Option<string>)
    ensures r.Some? ==> exists i :: YearAt(s, i) && r.value == s[i..i + 4]
                                    && forall j :: 0 <= j < i ==> !YearAt(s, j)
    ensures r.None? <==> forall i :: !YearAt(s, i)
  {
    match FindYear(s, 0)
    case None => None
    case Some(i) => Some(s[i..i + 4])
  }

  /** `extractYear` of the person view: a date that starts with `+` (the
      Wikibase time format) yields the four characters after the sign when
      they are digits and nothing otherwise; any other non-empty date yields
      its first stand-alone four-digit run. */
  function ExtractYear(s: string): (r: Option<string>)
    ensures r.Some? ==> |r.value| == 4 && AllDigits(r.value)
    ensures s == "" ==> r.None?
    ensures s != "" && s[0] == '+' ==>
      (r.Some? <==> |s| >= 5 && AllDigits(s[1..5])) && (r.Some? ==> r.value == s[1..5])
    ensures s != "" && s[0] != '+' ==>
      (r.None? <==> forall i :: !YearAt(s, i))
      && (r.Some? ==> exists i :: YearAt(s, i) && r.value == s[i..i + 4]
                                  && forall j :: 0 <= j < i ==> !YearAt(s, j))
  {
    if s == "" then None
    else if s[0] == '+' then
      if |s| >= 5 && AllDigits(s[1..5]) then Some(s[1..5]) else None
    else
      var y := WordYear(s);
      assert y.Some? ==> |y.value| == 4 && AllDigits(y.value);
      y
  }

  /** The person view and the tree builder read the same year from any date
      that does not start with `+`. */
  lemma ExtractYearMatchesTreeYear(s: string)
    requires s == "" || s[0] != '+'
    ensures ExtractYear(s) == WordYear(s)
  {
    if s == "" {
      assert !YearAt(s, 0);
    }
  }

  /** On a Wikibase time value `+YYYY-...` both readings give `YYYY`. */
  lemma WikibaseDateYear(s: string)
    requires |s| >= 6 && s[0] == '+' && AllDigits(s[1..5]) && s[5] == '-'
    ensures ExtractYear(s) == Some(s[1..5])
    ensures WordYear(s) == Some(s[1..5])
  {
    assert YearAt(s, 1);
    assert !YearAt(s, 0);
  }

  /** The two readings differ on a signed year of five or more digits: the
      person view cuts it to four digits, the tree builder finds no year. */
  lemma SignedLongYearDiffers()
    ensures ExtractYear("+12345") == Some("1234")
    ensures WordYear("+12345") == None
  {
    var s := "+12345";
    assert s[1..5] == "1234";
    forall i ensures !YearAt(s, i) {
      if i == 0 {
        assert s[0..4][0] == '+';
      } else if i == 1 {
        assert s[5] == '5';
      } else if i == 2 {
        assert s[1] == '1';
      }
    }
  }

  /** The numeric value of a four-digit year, `parseInt(year)`. */
  function YearValue(y: string): (v: nat)
    requires |y| == 4 && AllDigits(y)
    ensures ParseInt(y) == Some(v)
  {
    ParseIntOfDigits(y);
    DigitsValue(y)
  }

  /** `calculateAge(birth, death)` with the clock's current year passed in:
      no birth year gives no age; the end year is the death year when the
      death date has one and the current year otherwise; a negative
      difference gives no age. */
  function CalculateAge(birth: string, death: string, currentYear: int): (r: Option<nat>)
    ensures ExtractYear(birth).None? ==> r.None?
    ensures ExtractYear(birth).Some? ==>
      var b := YearValue(ExtractYear(birth).value);
      var e := if ExtractYear(death).Some? then YearValue(ExtractYear(death).value) else currentYear;
      (r.Some? <==> b <= e) && (r.Some? ==> b + r.value == e)
  {
    match ExtractYear(birth)
    case None => None
    case Some(birthYear) =>
      var endYear := match ExtractYear(death)
        case Some(dy) => YearValue(dy)
        case None => currentYear;
      var age := endYear - YearValue(birthYear);
      if age >= 0 then Some(age) else None
  }

  /** `suffixes[k]` on the array `['th', 'st', 'nd', 'rd']`; an index outside
      the array reads `undefined`. */
  function SuffixEntry(k: int): Option<string> {
    if k == 0 then Some("th")
    else if k == 1 then Some("st")
    else if k == 2 then Some("nd")
    else if k == 3 then Some("rd")
    else None
  }

  /** `suffixes[(v - 20) % 10] || suffixes[v] || suffixes[0]` with
      `v = num % 100`, both `%` truncating. (JavaScript's `-0` index reads
      entry `0`, as the integer `0` does here.) */
  function Suffix(num: int): (r: string)
    ensures r == "st" || r == "nd" || r == "rd" || r == "th"
    ensures num < 0 ==> r == "th"
  {
    var v := Rem(num, 100);
    match SuffixEntry(Rem(v - 20, 10))
    case Some(x) => x
    case None =>
      match SuffixEntry(v)
      case Some(x) => x
      case None => "th"
  }

  /** For a non-negative number the suffix is the English ordinal one:
      `st`, `nd`, `rd` for a last digit 1, 2, 3 outside the teens 11 to 13,
      and `th` otherwise. A negative number always gets `th`. */
  lemma EnglishOrdinalSuffix(num: int)
    ensures num >= 0 ==>
      Suffix(num) == (if 11 <= num % 100 <= 13 then "th"
       else if num % 10 == 1 then "st"
       else if num % 10 == 2 then "nd"
       else if num % 10 == 3 then "rd"
       else "th")
    ensures num < 0 ==> Suffix(num) == "th"
  {
    if num >= 0 {
      var v := num % 100;
      assert Rem(num, 100) == v == Rem(v, 100);
      LastTwoDigits(num);
      TwoDigitSuffix(v);
    } else {
      assert Rem(num, 100) <= 0;
    }
  }

  /** The last digit of a number is the last digit of its last two digits. */
  lemma LastTwoDigits(num: nat)
    ensures (num % 100) % 10 == num % 10
  {
    var v := num % 100;
    var k := 10 * (num / 100) + v / 10;
    assert num == 100 * (num / 100) + v;
    assert v == 10 * (v / 10) + v % 10;
    assert num == 10 * k + v % 10;
  }

  /** The suffix of a number below 100, from its decimal digits. */
  lemma TwoDigitSuffix(v: int)
    requires 0 <= v < 100
    ensures Suffix(v) == (if 11 <= v <= 13 then "th"
       else if v % 10 == 1 then "st"
       else if v % 10 == 2 then "nd"
       else if v % 10 == 3 then "rd"
       else "th")
  {
    assert Rem(v, 100) == v;
    ShiftedRem(v);
  }

  /** `(v - 20) % 10` with JavaScript's truncating `%`, for `v` below 100. */
  lemma ShiftedRem(v: int)
    requires 0 <= v < 100
    ensures Rem(v - 20, 10) == if v >= 20 then v % 10 else if v % 10 == 0 then 0 else v % 10 - 10
  {
    var t, d := v / 10, v % 10;
    assert v == 10 * t + d;
    if t >= 2 {
      assert v - 20 == 10 * (t - 2) + d;
    } else if d == 0 {
      assert 20 - v == 10 * (2 - t);
    } else {
      assert 20 - v == 10 * (1 - t) + (10 - d);
    }
  }

  /** What follows the number in a formatted birth order: `<suffix> born`. */
  function BornText(n: int): string {
    Suffix(n) + " born"
  }

  /** `formatBirthOrder(order)`: the empty string stays empty, text that
      `parseInt` cannot read is returned unchanged, and a number `n` becomes
      `<n><suffix> born`. */
  function FormatBirthOrder(order: string): (r: string)
    ensures r == "" <==> order == ""
    ensures order != "" && ParseInt(order).None? ==> r == order
    ensures order != "" && ParseInt(order).Some? ==>
      var n := ParseInt(order).value;
      r == IntToString(n) + BornText(n)
  {
    if order == "" then ""
    else
      match ParseInt(order)
      case None => order
      case Some(n) => IntToString(n) + BornText(n)
  }

  /** Every suffix is one of the four English ones. */
  lemma SuffixIsOrdinal(num: int)
    ensures Suffix(num) == "th" || Suffix(num) == "st" || Suffix(num) == "nd" || Suffix(num) == "rd"
  {
  }

  /** What follows the number in a formatted birth order neither continues
      the digits nor starts a hexadecimal prefix. */
  lemma BornTail(n: int)
    ensures var rest := BornText(n);
      rest != "" && !IsDigit(rest[0]) && rest[0] != 'x' && rest[0] != 'X'
  {
    SuffixIsOrdinal(n);
  }

  /** Formatting a formatted birth order changes nothing: `parseInt` reads
      the number back from `<n><suffix> born`. */
  lemma FormatBirthOrderIdempotent(order: string)
    ensures FormatBirthOrder(FormatBirthOrder(order)) == FormatBirthOrder(order)
  {
    if order != "" && ParseInt(order).Some? {
      var n := ParseInt(order).value;
      BornTail(n);
      ParseIntOfNumeral(n, BornText(n));
    }
  }

  /** A printed number is formatted as itself followed by its suffix. */
  lemma FormatNumeral(n: int)
    ensures FormatBirthOrder(IntToString(n)) == IntToString(n) + BornText(n)
  {
    var s := IntToString(n);
    ParseIntOfNumeral(n, "");
    assert s + "" == s;
  }

  /** The number a formatted birth order shows is the number it was given. */
  lemma FormatBirthOrderReadsBack(n: int)
    ensures ParseInt(FormatBirthOrder(IntToString(n))) == Some(n)
  {
    FormatNumeral(n);
    BornTail(n);
    ParseIntOfNumeral(n, BornText(n));
  }
}
