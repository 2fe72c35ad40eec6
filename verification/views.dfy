/** The logic of the people list and the profile header
    (`modules/UIRenderer.js`, with the same filter in `app.js`): the
    case-insensitive search, the count badges and the empty state. The HTML
    around these values is not modelled. */
module Views {
  import opened Common
  import opened Strings
  import opened People
  import opened Dates
  import opened Images

  /** `s.toLowerCase().includes(query.toLowerCase())`. */
  predicate ContainsFolded(s: string, query: string) {
    Includes(ToLower(s), ToLower(query))
  }

  /** `aliases.some(alias => alias.toLowerCase().includes(...))`. */
  function SomeAliasMatches(aliases: seq<string>, query: string): (b: bool)
    ensures b <==> exists k :: 0 <= k < |aliases| && ContainsFolded(aliases[k], query)
  {
    if |aliases| == 0 then false
    else
      assert forall k :: 1 <= k < |aliases| ==> aliases[k] == aliases[1..][k - 1];
      ContainsFolded(aliases[0], query) || SomeAliasMatches(aliases[1..], query)
  }

  /** The search predicate: the query occurs, ignoring case, in the name,
      the id or one of the aliases. */
  predicate Matches(p: Person, query: string) {
    ContainsFolded(p.name, query) || ContainsFolded(p.id, query) || SomeAliasMatches(p.aliases, query)
  }

  /** `people.filter(person => Matches(person, query))`. */
  function FilterPeople(people: seq<Person>, query: string): (r: seq<Person>)
    ensures IsSubseq(r, people)
    ensures forall i :: 0 <= i < |r| ==> Matches(r[i], query)
    ensures forall p :: p in people && Matches(p, query) ==> p in r
    ensures |r| <= |people|
  {
    if |people| == 0 then []
    else
      var rest := FilterPeople(people[1..], query);
      var r := if Matches(people[0], query) then [people[0]] + rest else rest;
      FilterStep(people, (p: Person) => Matches(p, query), rest, r);
      r
  }

  /** Keeping or dropping the first element extends the facts about the
      filtered tail to the whole list. */
  lemma FilterStep<T>(xs: seq<T>, ok: T -> bool, rest: seq<T>, r: seq<T>)
    requires |xs| > 0
    requires IsSubseq(rest, xs[1..])
    requires forall i :: 0 <= i < |rest| ==> ok(rest[i])
    requires forall x :: x in xs[1..] && ok(x) ==> x in rest
    requires r == if ok(xs[0]) then [xs[0]] + rest else rest
    ensures IsSubseq(r, xs)
    ensures forall i :: 0 <= i < |r| ==> ok(r[i])
    ensures forall x :: x in xs && ok(x) ==> x in r
    ensures |r| <= |xs|
  {
    SubseqMembers(rest, xs[1..]);
    var keep := ok(xs[0]);
    if keep {
      assert r[0] == xs[0] && r[1..] == rest;
    } else {
      SubseqCons(rest, xs);
    }
    forall i | 0 <= i < |r| ensures ok(r[i]) {
      if keep && i > 0 {
        assert r[i] == rest[i - 1];
      }
    }
    forall x | x in xs && ok(x) ensures x in r {
      if x != xs[0] {
        assert x in xs[1..];
      }
    }
  }

  /** The empty pattern occurs in every string. */
  lemma EmptyQueryMatches(p: Person)
    ensures Matches(p, "")
  {
    assert MatchAt(ToLower(p.name), ToLower(""), 0);
  }

  /** With an empty search box every person is listed, in order. */
  lemma {:induction false} FilterEmptyQuery(people: seq<Person>)
    ensures FilterPeople(people, "") == people
  {
    if |people| > 0 {
      EmptyQueryMatches(people[0]);
      FilterEmptyQuery(people[1..]);
      assert people == [people[0]] + people[1..];
    }
  }

  /** Filtering a filtered list again with the same query changes nothing. */
  lemma {:induction false} FilterIdempotent(people: seq<Person>, query: string)
    ensures FilterPeople(FilterPeople(people, query), query) == FilterPeople(people, query)
  {
    var r := FilterPeople(people, query);
    FilterKeepsMatching(r, query);
  }

  lemma {:induction false} FilterKeepsMatching(people: seq<Person>, query: string)
    requires forall i :: 0 <= i < |people| ==> Matches(people[i], query)
    ensures FilterPeople(people, query) == people
  {
    if |people| > 0 {
      FilterKeepsMatching(people[1..], query);
      assert people == [people[0]] + people[1..];
    }
  }

  /** Lower-casing keeps an occurrence where it is. */
  lemma ToLowerMatch(q2: string, q1: string, i: int)
    requires MatchAt(q2, q1, i)
    ensures MatchAt(ToLower(q2), ToLower(q1), i)
  {
    var l2, l1 := ToLower(q2), ToLower(q1);
    forall j | 0 <= j < |q1| ensures l2[i + j] == l1[j] {
      assert q2[i + j] == q2[i..i + |q1|][j];
    }
    assert l2[i..i + |q1|] == l1;
  }

  /** An occurrence inside an occurrence is an occurrence. */
  lemma MatchTransitive(s: string, b: string, a: string, k: int, i: int)
    requires MatchAt(s, b, k) && MatchAt(b, a, i)
    ensures MatchAt(s, a, k + i)
  {
    forall j | 0 <= j < |a| ensures s[k + i + j] == a[j] {
      assert s[k + i + j] == s[k..k + |b|][i + j];
      assert b[i + j] == b[i..i + |a|][j];
    }
    assert s[k + i..k + i + |a|] == a;
  }

  /** If `q1` occurs in `q2`, any text containing `q2` (ignoring case)
      contains `q1`. */
  lemma ContainsNarrowing(s: string, q1: string, q2: string)
    requires Includes(q2, q1)
    requires ContainsFolded(s, q2)
    ensures ContainsFolded(s, q1)
  {
    var i :| MatchAt(q2, q1, i);
    var k :| MatchAt(ToLower(s), ToLower(q2), k);
    ToLowerMatch(q2, q1, i);
    MatchTransitive(ToLower(s), ToLower(q2), ToLower(q1), k, i);
  }

  lemma MatchesNarrowing(p: Person, q1: string, q2: string)
    requires Includes(q2, q1) && Matches(p, q2)
    ensures Matches(p, q1)
  {
    if ContainsFolded(p.name, q2) {
      ContainsNarrowing(p.name, q1, q2);
    } else if ContainsFolded(p.id, q2) {
      ContainsNarrowing(p.id, q1, q2);
    } else {
      var k :| 0 <= k < |p.aliases| && ContainsFolded(p.aliases[k], q2);
      ContainsNarrowing(p.aliases[k], q1, q2);
    }
  }

  /** Typing more of a query only narrows the list: the result for a
      longer query is a subsequence of the result for any part of it. */
  lemma {:induction false} FilterNarrowing(people: seq<Person>, q1: string, q2: string)
    requires Includes(q2, q1)
    ensures IsSubseq(FilterPeople(people, q2), FilterPeople(people, q1))
  {
    if |people| > 0 {
      FilterNarrowing(people[1..], q1, q2);
      var r1, r2 := FilterPeople(people[1..], q1), FilterPeople(people[1..], q2);
      if Matches(people[0], q2) {
        MatchesNarrowing(people[0], q1, q2);
        assert FilterPeople(people, q2) == [people[0]] + r2;
        assert FilterPeople(people, q1) == [people[0]] + r1;
        assert ([people[0]] + r2)[1..] == r2 && ([people[0]] + r1)[1..] == r1;
      } else if Matches(people[0], q1) {
        assert FilterPeople(people, q1) == [people[0]] + r1;
        SubseqCons(r2, [people[0]] + r1);
        assert ([people[0]] + r1)[1..] == r1;
      }
    }
  }

  /** The query is folded like the text: upper and lower case find the same people. */
  lemma MatchesIgnoresCase(p: Person, query: string)
    ensures Matches(p, ToLower(query)) == Matches(p, query)
  {
    ToLowerIdempotent(query);
  }

  /** What `renderPeopleList` shows for a query. */
  datatype ListView = ListView(
    shown: seq<Person>,
    total: nat,
    filteredBadge: Option<nat>,
    emptyState: bool,
    searchHint: bool)

  function PeopleList(people: seq<Person>, query: string): (v: ListView)
    ensures v.shown == FilterPeople(people, query) && v.total == |people|
    ensures v.filteredBadge.Some? <==> query != "" && |v.shown| < v.total
    ensures v.filteredBadge.Some? ==> v.filteredBadge.value == |v.shown|
    ensures v.emptyState <==> v.shown == []
    ensures v.searchHint <==> v.shown == [] && query != ""
  {
    var shown := FilterPeople(people, query);
    ListView(
      shown,
      |people|,
      if query != "" && |shown| != |people| then Some(|shown|) else None,
      |shown| == 0,
      |shown| == 0 && query != "")
  }

  /** The "N filtered" badge never appears for an empty query, and when it
      appears some person really was filtered out. */
  lemma BadgeMeansSomeoneHidden(people: seq<Person>, query: string)
    ensures query == "" ==> PeopleList(people, query).filteredBadge.None?
    ensures PeopleList(people, query).filteredBadge.Some? ==>
              exists p :: p in people && !Matches(p, query)
  {
    var v := PeopleList(people, query);
    if v.filteredBadge.Some? {
      if forall i :: 0 <= i < |people| ==> Matches(people[i], query) {
        FilterKeepsMatching(people, query);
        assert false;
      }
    }
  }

  /** The empty state with an empty search box means there is nobody at all. */
  lemma EmptyStateWithoutQuery(people: seq<Person>)
    ensures PeopleList(people, "").emptyState <==> people == []
    ensures !PeopleList(people, "").searchHint
  {
    FilterEmptyQuery(people);
  }

  /** JavaScript's `${c && s}` inside a template literal: when `c` is false
      the interpolated value is `false`, printed as the text "false". */
  function InterpolateAnd(c: bool, s: string): (r: string)
    ensures c ==> r == s
    ensures !c ==> r == "false"
  {
    if c then s else "false"
  }

  function PhotosBadgeText(count: int): string {
    IntToString(count) + "+ photos"
  }

  /** The profile header's photo badge as written: `${count > 0 && ...}`. */
  function PhotosBadgeAsWritten(count: int): (r: string)
    ensures count > 0 ==> r == PhotosBadgeText(count)
    ensures count <= 0 ==> r == "false"
  {
    InterpolateAnd(count > 0, PhotosBadgeText(count))
  }

  /** With no image or a single image the header shows the word "false". */
  lemma PhotosBadgeAsWrittenShowsFalse()
    ensures PhotosBadgeAsWritten(ProfileImages([]).additionalCount) == "false"
    ensures PhotosBadgeAsWritten(ProfileImages(["assets/Q1.jpg"]).additionalCount) == "false"
  {
  }

  /** The photo badge as evidently intended: nothing unless there are
      additional images. */
  function PhotosBadge(count: int): (r: string)
    ensures r != "" <==> count > 0
    ensures count > 0 ==> r == PhotosBadgeText(count)
  {
    if count > 0 then PhotosBadgeText(count) else ""
  }

  /** The badge appears exactly for two or more images, and counts the
      images after the profile image. */
  lemma PhotosBadgeForImages(images: seq<string>)
    ensures PhotosBadge(ProfileImages(images).additionalCount) != "" <==> |images| >= 2
    ensures |images| >= 2 ==>
              PhotosBadge(ProfileImages(images).additionalCount) == NatToString(|images| - 1) + "+ photos"
  {
  }

  function AgeBadgeText(age: nat): string {
    NatToString(age) + " years"
  }

  /** The profile header's age badge as written: `${age !== null && ...}`. */
  function AgeBadgeAsWritten(age: Option<nat>): (r: string)
    ensures age.Some? ==> r == AgeBadgeText(age.value)
    ensures age.None? ==> r == "false"
  {
    InterpolateAnd(age.Some?, AgeBadgeText(age.GetOr(0)))
  }

  /** A person without a birth date gets the word "false" in the header. */
  lemma AgeBadgeAsWrittenShowsFalse(currentYear: int)
    ensures AgeBadgeAsWritten(CalculateAge("", "", currentYear)) == "false"
  {
  }

  /** The age badge as evidently intended: nothing when the age is unknown. */
  function AgeBadge(age: Option<nat>): (r: string)
    ensures r != "" <==> age.Some?
    ensures age.Some? ==> r == AgeBadgeText(age.value)
  {
    if age.Some? then AgeBadgeText(age.value) else ""
  }

  /** The corrected age badge is empty exactly when no birth year can be read. */
  lemma AgeBadgeForDates(birth: string, death: string, currentYear: int)
    ensures AgeBadge(CalculateAge(birth, death, currentYear)) == "" <==>
              CalculateAge(birth, death, currentYear).None?
    ensures ExtractYear(birth).None? ==> AgeBadge(CalculateAge(birth, death, currentYear)) == ""
  {
  }
}
