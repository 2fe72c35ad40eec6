/** Generic helpers shared by every module of the model: an optional value
    (JavaScript's `null`/`undefined` against a present value) and a few
    facts about sequences without duplicates and subsequences. */
module Common {

  /** `None` stands for a JavaScript `null` or `undefined` result. */
  datatype Option<+T> = None | Some(value: T) {
    function GetOr(default: T): T {
      match this
      case Some(v) => v
      case None => default
    }
  }

  /** No element occurs twice. */
  predicate NoDups<T(==)>(s: seq<T>) {
    forall i, j :: 0 <= i < j < |s| ==> s[i] != s[j]
  }

  /** `a` can be obtained from `b` by deleting elements (order is kept). */
  predicate IsSubseq<T(==)>(a: seq<T>, b: seq<T>)
    decreases |b|
  {
    if |a| == 0 then true
    else if |b| == 0 then false
    else if a[0] == b[0] then IsSubseq(a[1..], b[1..])
    else IsSubseq(a, b[1..])
  }

  /** Position of the first occurrence of `x` in `s`. */
  function FirstIndex<T(==)>(s: seq<T>, x: T): (i: nat)
    requires x in s
    ensures i < |s| && s[i] == x
    ensures forall j :: 0 <= j < i ==> s[j] != x
  {
    if s[0] == x then 0 else 1 + FirstIndex(s[1..], x)
  }

  /** `xs.includes(x) ? xs : xs.push(x)`: append an element unless present. */
  function AddUnique<T(==,!new)>(s: seq<T>, x: T): (r: seq<T>)
    ensures NoDups(s) ==> NoDups(r)
    ensures forall y :: y in r <==> y in s || y == x
    ensures |s| <= |r| && r[..|s|] == s
    ensures x in s ==> r == s
  {
    if x in s then s else s + [x]
  }

  /** Every element of `order` occurs in `s`, and `order` lists them by
      their first occurrence in `s`. */
  predicate FirstSeenOrder<T(==)>(s: seq<T>, order: seq<T>) {
    && (forall y :: y in order ==> y in s)
    && (forall i, j :: 0 <= i < j < |order| ==> FirstIndex(s, order[i]) < FirstIndex(s, order[j]))
  }

  /** Appending to `s` keeps a first-seen order, and an element new to `s`
      may be appended to the order. */
  lemma FirstSeenAppend<T>(s: seq<T>, x: T, order: seq<T>)
    requires FirstSeenOrder(s, order)
    ensures FirstSeenOrder(s + [x], order)
    ensures x !in s ==> FirstSeenOrder(s + [x], order + [x])
  {
    forall y | y in s ensures FirstIndex(s + [x], y) == FirstIndex(s, y) {
      FirstIndexAppend(s, [x], y);
    }
    if x !in s {
      var o := order + [x];
      FirstIndexOfNew(s, x);
      forall i, j | 0 <= i < j < |o| ensures FirstIndex(s + [x], o[i]) < FirstIndex(s + [x], o[j]) {
        assert o[i] == order[i] && order[i] in order;
        if j < |order| {
          assert o[j] == order[j] && order[j] in order;
        }
      }
    }
  }

  /** The distinct elements of `s` in order of first appearance, built the
      way a loop of `AddUnique` builds them. */
  function Dedup<T(==,!new)>(s: seq<T>): (r: seq<T>)
    ensures NoDups(r)
    ensures forall y :: y in r <==> y in s
    ensures FirstSeenOrder(s, r)
  {
    if |s| == 0 then []
    else
      var init := s[..|s| - 1];
      var last := s[|s| - 1];
      var d := Dedup(init);
      assert s == init + [last];
      FirstSeenAppend(init, last, d);
      if last in d then d else d + [last]
  }

  /** Deduplicating one more element is adding it unless present. */
  lemma DedupSnoc<T(!new)>(s: seq<T>, x: T)
    ensures Dedup(s + [x]) == AddUnique(Dedup(s), x)
  {
    assert (s + [x])[..|s|] == s;
  }

  /** An element new to `s` first occurs in `s + [x]` at the end. */
  lemma FirstIndexOfNew<T>(s: seq<T>, x: T)
    requires x !in s
    ensures x in s + [x] && FirstIndex(s + [x], x) == |s|
  {
  }

  /** The first occurrence of an element of `s` stays where it is when more
      elements are appended. */
  lemma {:induction false} FirstIndexAppend<T>(s: seq<T>, t: seq<T>, y: T)
    requires y in s
    ensures FirstIndex(s + t, y) == FirstIndex(s, y)
  {
    if s[0] != y {
      assert (s + t)[1..] == s[1..] + t;
      FirstIndexAppend(s[1..], t, y);
    }
  }

  lemma NoDupsConcat<T>(a: seq<T>, b: seq<T>)
    requires NoDups(a) && NoDups(b)
    requires forall x :: x in a ==> x !in b
    ensures NoDups(a + b)
  {
    forall i, j | 0 <= i < j < |a + b| ensures (a + b)[i] != (a + b)[j] {
      if j < |a| {
      } else if i >= |a| {
        assert (a + b)[i] == b[i - |a|] && (a + b)[j] == b[j - |a|];
      } else {
        assert (a + b)[i] in a && (a + b)[j] in b;
      }
    }
  }

  lemma {:induction false} SubseqConcat<T>(a: seq<T>, b: seq<T>, c: seq<T>, d: seq<T>)
    requires IsSubseq(a, b) && IsSubseq(c, d)
    ensures IsSubseq(a + c, b + d)
    decreases |b|
  {
    if |a| == 0 {
      assert a + c == c;
      SubseqOfSuffix(c, b, d);
    } else {
      assert (b + d)[1..] == b[1..] + d;
      if a[0] == b[0] {
        assert (a + c)[1..] == a[1..] + c;
        SubseqConcat(a[1..], b[1..], c, d);
      } else {
        SubseqConcat(a, b[1..], c, d);
        SubseqCons(a + c, b + d);
      }
    }
  }

  lemma {:induction false} SubseqOfSuffix<T>(c: seq<T>, b: seq<T>, d: seq<T>)
    requires IsSubseq(c, d)
    ensures IsSubseq(c, b + d)
    decreases |b|
  {
    if |b| > 0 {
      assert (b + d)[1..] == b[1..] + d;
      SubseqOfSuffix(c, b[1..], d);
      SubseqCons(c, b + d);
    } else {
      assert b + d == d;
    }
  }

  /** A subsequence of the tail is a subsequence of the whole. */
  lemma {:induction false} SubseqCons<T>(a: seq<T>, b: seq<T>)
    requires |b| > 0 && IsSubseq(a, b[1..])
    ensures IsSubseq(a, b)
    decreases |b|, 0
  {
    if |a| > 0 && a[0] == b[0] {
      SubseqTail(a, b[1..]);
    }
  }

  /** Dropping the head of a subsequence keeps it a subsequence. */
  lemma {:induction false} SubseqTail<T>(a: seq<T>, c: seq<T>)
    requires |a| > 0 && IsSubseq(a, c)
    ensures IsSubseq(a[1..], c)
    decreases |c|, 1
  {
    if a[0] == c[0] {
      SubseqCons(a[1..], c);
    } else {
      SubseqTail(a, c[1..]);
      SubseqCons(a[1..], c);
    }
  }

  /** Every element of a subsequence is an element of the whole. */
  lemma {:induction false} SubseqMembers<T>(a: seq<T>, b: seq<T>)
    requires IsSubseq(a, b)
    ensures forall x :: x in a ==> x in b
    ensures |a| <= |b|
    decreases |b|
  {
    if |a| > 0 {
      assert a == [a[0]] + a[1..];
      if a[0] == b[0] {
        assert b == [b[0]] + b[1..];
        SubseqMembers(a[1..], b[1..]);
      } else {
        SubseqMembers(a, b[1..]);
      }
    }
  }

  /** A subsequence as long as the whole is the whole. */
  lemma {:induction false} SubseqSameLength<T>(a: seq<T>, b: seq<T>)
    requires IsSubseq(a, b) && |a| == |b|
    ensures a == b
    decreases |b|
  {
    if |a| > 0 {
      if a[0] == b[0] {
        SubseqSameLength(a[1..], b[1..]);
        assert a == [a[0]] + a[1..] && b == [b[0]] + b[1..];
      } else {
        SubseqMembers(a, b[1..]);
      }
    }
  }
}
