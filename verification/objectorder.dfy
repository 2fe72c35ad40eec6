/** The order in which `Object.values` lists the properties of a plain
    object (section 10.1.11.1, OrdinaryOwnPropertyKeys, of ECMA-262): keys
    that are array indices come first in ascending numeric order, then the
    remaining string keys in insertion order. */
module ObjectOrder {
  import opened Common
  import opened Strings

  /** A canonical numeral below 2^32 - 1: `"0"`, or digits without a leading zero. */
  predicate IsArrayIndex(k: string) {
    && |k| >= 1
    && AllDigits(k)
    && (k[0] != '0' || k == "0")
    && DigitsValue(k) < 0xFFFF_FFFF
  }

  /** The numeric value of an array-index key (other keys are never compared). */
  function IndexValue(k: string): nat {
    if IsArrayIndex(k) then DigitsValue(k) else 0
  }

  predicate SortedIndices(s: seq<string>) {
    && (forall i :: 0 <= i < |s| ==> IsArrayIndex(s[i]))
    && (forall i, j :: 0 <= i < j < |s| ==> IndexValue(s[i]) <= IndexValue(s[j]))
  }

  /** The keys of `s` that are (or are not) array indices, in order. */
  function FilterIndices(s: seq<string>, wanted: bool): (r: seq<string>)
    ensures forall x :: x in r <==> x in s && IsArrayIndex(x) == wanted
    ensures NoDups(s) ==> NoDups(r)
    ensures IsSubseq(r, s)
  {
    if |s| == 0 then []
    else
      var rest := FilterIndices(s[1..], wanted);
      assert s == [s[0]] + s[1..];
      if IsArrayIndex(s[0]) == wanted then
        assert (NoDups(s) ==> s[0] !in s[1..]);
        [s[0]] + rest
      else
        SubseqCons(rest, s);
        rest
  }

  function Insert(x: string, s: seq<string>): (r: seq<string>)
    requires IsArrayIndex(x) && SortedIndices(s)
    ensures SortedIndices(r)
    ensures forall y :: y in r <==> y == x || y in s
    ensures NoDups(s) && x !in s ==> NoDups(r)
  {
    if |s| == 0 || IndexValue(x) <= IndexValue(s[0]) then
      InsertAtHead(x, s);
      [x] + s
    else
      SortedTail(s);
      var rest := Insert(x, s[1..]);
      InsertAfterHead(x, s, rest);
      [s[0]] + rest
  }

  /** A key no larger than the first of a sorted list goes in front. */
  lemma InsertAtHead(x: string, s: seq<string>)
    requires IsArrayIndex(x) && SortedIndices(s)
    requires |s| == 0 || IndexValue(x) <= IndexValue(s[0])
    ensures SortedIndices([x] + s)
    ensures forall y :: y in [x] + s <==> y == x || y in s
    ensures NoDups(s) && x !in s ==> NoDups([x] + s)
  {
    if |s| > 0 {
      SortedTail(s);
      assert forall k :: 1 <= k < |s| ==> s[k] == s[1..][k - 1];
    }
    SortedCons(x, s);
    if NoDups(s) && x !in s {
      NoDupsConcat([x], s);
    }
  }

  /** A key larger than the first of a sorted list goes into its tail. */
  lemma InsertAfterHead(x: string, s: seq<string>, rest: seq<string>)
    requires IsArrayIndex(x) && SortedIndices(s) && |s| > 0 && IndexValue(x) > IndexValue(s[0])
    requires SortedIndices(rest)
    requires forall y :: y in rest <==> y == x || y in s[1..]
    requires NoDups(s[1..]) && x !in s[1..] ==> NoDups(rest)
    ensures SortedIndices([s[0]] + rest)
    ensures forall y :: y in [s[0]] + rest <==> y == x || y in s
    ensures NoDups(s) && x !in s ==> NoDups([s[0]] + rest)
  {
    SortedTail(s);
    assert s == [s[0]] + s[1..];
    LowerBound(s[0], x, s[1..], rest);
    SortedCons(s[0], rest);
    if NoDups(s) && x !in s {
      assert s[0] !in rest && NoDups(rest);
      NoDupsConcat([s[0]], rest);
    }
  }

  /** The tail of a sorted list is sorted and bounded below by its head. */
  lemma SortedTail(s: seq<string>)
    requires |s| > 0 && SortedIndices(s)
    ensures SortedIndices(s[1..])
    ensures forall k :: 0 <= k < |s[1..]| ==> IndexValue(s[0]) <= IndexValue(s[1..][k])
  {
    var t := s[1..];
    assert forall k :: 0 <= k < |t| ==> t[k] == s[k + 1];
  }

  /** A lower bound of `x` and of all of `t` bounds every element of a list
      holding `x` and the elements of `t`. */
  lemma LowerBound(a: string, x: string, t: seq<string>, r: seq<string>)
    requires IndexValue(a) <= IndexValue(x)
    requires forall k :: 0 <= k < |t| ==> IndexValue(a) <= IndexValue(t[k])
    requires forall y :: y in r ==> y == x || y in t
    ensures forall k :: 0 <= k < |r| ==> IndexValue(a) <= IndexValue(r[k])
  {
    forall k | 0 <= k < |r| ensures IndexValue(a) <= IndexValue(r[k]) {
      assert r[k] in r;
    }
  }

  lemma SortedCons(a: string, rest: seq<string>)
    requires IsArrayIndex(a) && SortedIndices(rest)
    requires forall k :: 0 <= k < |rest| ==> IndexValue(a) <= IndexValue(rest[k])
    ensures SortedIndices([a] + rest)
  {
    var r := [a] + rest;
    forall i, j | 0 <= i < j < |r| ensures IndexValue(r[i]) <= IndexValue(r[j]) {
      if i > 0 {
        assert r[i] == rest[i - 1] && r[j] == rest[j - 1];
      } else {
        assert r[j] == rest[j - 1];
      }
    }
  }

  /** Insertion sort of array-index keys by numeric value. */
  function SortIndices(s: seq<string>): (r: seq<string>)
    requires forall i :: 0 <= i < |s| ==> IsArrayIndex(s[i])
    ensures SortedIndices(r)
    ensures forall y :: y in r <==> y in s
    ensures NoDups(s) ==> NoDups(r)
  {
    if |s| == 0 then []
    else
      assert s == [s[0]] + s[1..];
      assert forall i :: 0 <= i < |s[1..]| ==> IsArrayIndex(s[1..][i]) by {
        forall i | 0 <= i < |s[1..]| ensures IsArrayIndex(s[1..][i]) {
          assert s[1..][i] == s[i + 1];
        }
      }
      var rest := SortIndices(s[1..]);
      assert NoDups(s) ==> s[0] !in rest && NoDups(s[1..]);
      Insert(s[0], rest)
  }

  /** Order of the keys of an object whose properties were created in the
      order `keys`. */
  function KeyOrder(keys: seq<string>): (r: seq<string>)
    ensures forall y :: y in r <==> y in keys
    ensures NoDups(keys) ==> NoDups(r)
    ensures exists n :: (0 <= n <= |r| && SortedIndices(r[..n])
                         && r[n..] == FilterIndices(keys, false))
  {
    var idx := SortIndices(FilterIndices(keys, true));
    var other := FilterIndices(keys, false);
    assert NoDups(keys) ==> NoDups(idx + other) by {
      if NoDups(keys) {
        NoDupsConcat(idx, other);
      }
    }
    var r := idx + other;
    assert r[..|idx|] == idx && r[|idx|..] == other;
    r
  }

  /** Without array-index keys the object keeps insertion order; Wikibase item
      ids (`Q<digits>`) are never array indices. */
  lemma KeyOrderWithoutIndices(keys: seq<string>)
    requires forall i :: 0 <= i < |keys| ==> !IsArrayIndex(keys[i])
    ensures KeyOrder(keys) == keys
  {
    FilterAllKept(keys);
  }

  lemma {:induction false} FilterAllKept(keys: seq<string>)
    requires forall i :: 0 <= i < |keys| ==> !IsArrayIndex(keys[i])
    ensures FilterIndices(keys, false) == keys
    ensures FilterIndices(keys, true) == []
  {
    if |keys| > 0 {
      FilterAllKept(keys[1..]);
      assert keys == [keys[0]] + keys[1..];
    }
  }
}
