/** Turning the bindings of the SPARQL query into person records
    (`processSparqlResults` in `modules/DataService.js`, and the copy in
    `app.js` that also keeps the image properties and selects a person).
    Rows are folded into one record per item id: the first row of an id
    fixes its scalar fields, later rows only contribute aliases. */
module Sparql {
  import opened Common
  import opened Strings
  import opened People
  import opened ObjectOrder
  import opened Qid

  /** One binding row; `None` is a variable the row leaves unbound. */
  datatype Row = Row(
    person: Option<string>,
    personLabel: Option<string>,
    father: Option<string>,
    mother: Option<string>,
    birthDate: Option<string>,
    deathDate: Option<string>,
    birthOrder: Option<string>,
    residenceLabel: Option<string>,
    occupationLabel: Option<string>,
    personDescription: Option<string>,
    alias: Option<string>,
    image: Option<string>,
    wallPhoto: Option<string>)

  /** The data layer module drops the image properties; the application's
      own copy keeps them. */
  datatype Variant = ModuleVariant | AppVariant

  /** `row.x?.value`, with an unbound variable read as the empty string. */
  function Val(o: Option<string>): string {
    o.GetOr("")
  }

  /** `row.x?.value.split('/').pop()`: the last segment of a bound URI. */
  function SegmentOf(o: Option<string>): (r: string)
    ensures o.None? ==> r == ""
    ensures o.Some? ==> r == LastSegment(o.value)
  {
    match o
    case None => ""
    case Some(u) => LastSegment(u)
  }

  /** The item id of a row; the empty string means the row is skipped. */
  function RowId(row: Row): string {
    SegmentOf(row.person)
  }

  /** The record created for the first row of an id. */
  function NewPerson(row: Row, id: string, v: Variant): (p: Person)
    ensures p.id == id && p.aliases == []
    ensures p.name == (if Val(row.personLabel) == "" then "Person " + id else Val(row.personLabel))
    ensures p.wikibaseUrl == WikibaseBaseUrl + id
    ensures p.fatherId == SegmentOf(row.father) && p.motherId == SegmentOf(row.mother)
    ensures v == ModuleVariant ==> p.imageValue == "" && p.wallPhotoValue == ""
    ensures v == AppVariant ==> p.imageValue == Val(row.image) && p.wallPhotoValue == Val(row.wallPhoto)
  {
    var title := Val(row.personLabel);
    Person(
      id := id,
      name := if title != "" then title else "Person " + id,
      fatherId := SegmentOf(row.father),
      motherId := SegmentOf(row.mother),
      birthDate := Val(row.birthDate),
      deathDate := Val(row.deathDate),
      birthOrder := Val(row.birthOrder),
      residence := Val(row.residenceLabel),
      occupation := Val(row.occupationLabel),
      description := Val(row.personDescription),
      imageValue := if v == AppVariant then Val(row.image) else "",
      wallPhotoValue := if v == AppVariant then Val(row.wallPhoto) else "",
      wikibaseUrl := WikibaseBaseUrl + id,
      aliases := [])
  }

  /** `peopleMap` together with the order in which its keys were created. */
  datatype Grouping = Grouping(order: seq<string>, byId: map<string, Person>)

  ghost predicate Valid(g: Grouping) {
    && NoDups(g.order)
    && "" !in g.byId
    && (forall id :: id in g.byId <==> id in g.order)
    && (forall id :: id in g.byId ==> g.byId[id].id == id)
  }

  /** Record `p` under the new key `id`. */
  function Create(g: Grouping, id: string, p: Person): (r: Grouping)
    requires Valid(g) && id != "" && id !in g.byId && p.id == id
    ensures Valid(r)
    ensures r.order == g.order + [id] && r.byId == g.byId[id := p]
  {
    var r := Grouping(g.order + [id], g.byId[id := p]);
    assert NoDups(r.order) by {
      NoDupsConcat(g.order, [id]);
    }
    r
  }

  /** `peopleMap[id].aliases.push(alias)` unless the alias is already there. */
  function AddAlias(g: Grouping, id: string, alias: string): (r: Grouping)
    requires Valid(g) && id in g.byId
    ensures Valid(r)
    ensures r.order == g.order
    ensures r.byId == g.byId[id := g.byId[id].(aliases := AddUnique(g.byId[id].aliases, alias))]
  {
    var p := g.byId[id];
    Grouping(g.order, g.byId[id := p.(aliases := AddUnique(p.aliases, alias))])
  }

  /** The body of the `forEach`: skip a row without id, create the record on
      the first row of an id, then add a non-empty alias unless present. */
  function Step(g: Grouping, row: Row, v: Variant): (r: Grouping)
    requires Valid(g)
    ensures Valid(r)
    ensures var id := RowId(row);
      r.order == if id == "" || id in g.byId then g.order else g.order + [id]
    ensures forall y :: y in g.byId && y != RowId(row) ==> r.byId[y] == g.byId[y]
    ensures var id := RowId(row);
      id != "" ==>
        var p := if id in g.byId then g.byId[id] else NewPerson(row, id, v);
        var alias := Val(row.alias);
        r.byId[id] == p.(aliases := if alias == "" then p.aliases else AddUnique(p.aliases, alias))
  {
    var id := RowId(row);
    if id == "" then g
    else
      var g1 := if id in g.byId then g else Create(g, id, NewPerson(row, id, v));
      if Val(row.alias) == "" then g1 else AddAlias(g1, id, Val(row.alias))
  }

  /** The fold over `data.results.bindings`. */
  function Group(rows: seq<Row>, v: Variant): (g: Grouping)
    ensures Valid(g)
  {
    if |rows| == 0 then Grouping([], map[])
    else Step(Group(rows[..|rows| - 1], v), rows[|rows| - 1], v)
  }

  /** The id of every row, skipped rows included. */
  function Ids(rows: seq<Row>): (r: seq<string>)
    ensures |r| == |rows|
    ensures forall i :: 0 <= i < |rows| ==> r[i] == RowId(rows[i])
  {
    seq(|rows|, i requires 0 <= i < |rows| => RowId(rows[i]))
  }

  /** The non-empty alias values of the rows of `id`, in row order. */
  function AliasValues(rows: seq<Row>, id: string): (r: seq<string>)
    ensures forall a :: a in r <==> a != "" && exists i :: 0 <= i < |rows| && RowId(rows[i]) == id && Val(rows[i].alias) == a
  {
    if |rows| == 0 then []
    else
      var init := rows[..|rows| - 1];
      var last := rows[|rows| - 1];
      var r := AliasValues(init, id);
      AliasValuesSnoc(rows, id, r);
      if RowId(last) == id && Val(last.alias) != "" then r + [Val(last.alias)] else r
  }

  /** The alias values of all rows are those of the earlier rows and that of the last. */
  lemma AliasValuesSnoc(rows: seq<Row>, id: string, r: seq<string>)
    requires |rows| > 0
    requires var init := rows[..|rows| - 1];
      forall a :: a in r <==> a != "" && exists i :: 0 <= i < |init| && RowId(init[i]) == id && Val(init[i].alias) == a
    ensures var last := rows[|rows| - 1];
      var res := if RowId(last) == id && Val(last.alias) != "" then r + [Val(last.alias)] else r;
      forall a :: a in res <==> a != "" && exists i :: 0 <= i < |rows| && RowId(rows[i]) == id && Val(rows[i].alias) == a
  {
    var init := rows[..|rows| - 1];
    var last := rows[|rows| - 1];
    var res := if RowId(last) == id && Val(last.alias) != "" then r + [Val(last.alias)] else r;
    forall a ensures a in res <==> a != "" && exists i :: 0 <= i < |rows| && RowId(rows[i]) == id && Val(rows[i].alias) == a {
      if a in r {
        var i :| 0 <= i < |init| && RowId(init[i]) == id && Val(init[i].alias) == a;
        assert rows[i] == init[i];
      } else if a in res {
        assert RowId(rows[|rows| - 1]) == id && Val(rows[|rows| - 1].alias) == a;
      }
      if a != "" && exists i :: 0 <= i < |rows| && RowId(rows[i]) == id && Val(rows[i].alias) == a {
        var i :| 0 <= i < |rows| && RowId(rows[i]) == id && Val(rows[i].alias) == a;
        if i < |init| {
          assert init[i] == rows[i];
        }
      }
    }
  }

  /** What the record of `id` must be: built from the first row that carries
      the id, with the distinct aliases of all its rows in first-seen order. */
  function ExpectedPerson(rows: seq<Row>, id: string, v: Variant): Person
    requires id in Ids(rows)
  {
    NewPerson(rows[FirstIndex(Ids(rows), id)], id, v).(aliases := Dedup(AliasValues(rows, id)))
  }

  lemma IdsSnoc(rows: seq<Row>)
    requires |rows| > 0
    ensures Ids(rows) == Ids(rows[..|rows| - 1]) + [RowId(rows[|rows| - 1])]
  {
  }

  lemma AliasSnoc(rows: seq<Row>, id: string)
    requires |rows| > 0
    ensures var row := rows[|rows| - 1];
      var prior := AliasValues(rows[..|rows| - 1], id);
      AliasValues(rows, id) == if RowId(row) == id && Val(row.alias) != "" then prior + [Val(row.alias)] else prior
  {
  }

  /** The keys of the fold are exactly the non-empty row ids. */
  lemma {:induction false} GroupMembers(rows: seq<Row>, v: Variant)
    ensures forall id :: id in Group(rows, v).order <==> id != "" && id in Ids(rows)
  {
    if |rows| > 0 {
      var init := rows[..|rows| - 1];
      var id := RowId(rows[|rows| - 1]);
      GroupMembers(init, v);
      IdsSnoc(rows);
      var g0 := Group(init, v);
      var g := Group(rows, v);
      assert g == Step(g0, rows[|rows| - 1], v);
      forall y ensures y in g.order <==> y != "" && y in Ids(rows) {
        assert y in Ids(rows) <==> y in Ids(init) || y == id;
      }
    }
  }

  /** The keys of the fold are created in order of first appearance. */
  lemma {:induction false} GroupFirstSeen(rows: seq<Row>, v: Variant)
    ensures FirstSeenOrder(Ids(rows), Group(rows, v).order)
  {
    if |rows| > 0 {
      var init := rows[..|rows| - 1];
      var id := RowId(rows[|rows| - 1]);
      GroupFirstSeen(init, v);
      GroupMembers(init, v);
      IdsSnoc(rows);
      var g0 := Group(init, v);
      assert Group(rows, v) == Step(g0, rows[|rows| - 1], v);
      FirstSeenAppend(Ids(init), id, g0.order);
    }
  }

  /** Every record of `g` is the expected record for `rows`. */
  ghost predicate RecordsMatch(g: Grouping, rows: seq<Row>, v: Variant) {
    forall id :: id in g.byId ==> id in Ids(rows) && g.byId[id] == ExpectedPerson(rows, id, v)
  }

  /** Each record of the fold is the expected one. */
  lemma {:induction false} GroupRecords(rows: seq<Row>, v: Variant)
    ensures RecordsMatch(Group(rows, v), rows, v)
  {
    if |rows| > 0 {
      var init := rows[..|rows| - 1];
      var g0 := Group(init, v);
      GroupRecords(init, v);
      GroupMembers(init, v);
      StepRecords(g0, rows, v);
    }
  }

  /** One step of the induction: the step for the last row turns records
      matching the earlier rows into records matching all rows. */
  lemma StepRecords(g0: Grouping, rows: seq<Row>, v: Variant)
    requires |rows| > 0 && Valid(g0)
    requires RecordsMatch(g0, rows[..|rows| - 1], v)
    requires forall id :: id in g0.order <==> id != "" && id in Ids(rows[..|rows| - 1])
    ensures RecordsMatch(Step(g0, rows[|rows| - 1], v), rows, v)
  {
    var g := Step(g0, rows[|rows| - 1], v);
    forall y | y in g.byId ensures y in Ids(rows) && g.byId[y] == ExpectedPerson(rows, y, v) {
      StepRecord(g0, rows, v, y);
    }
  }

  lemma StepRecord(g0: Grouping, rows: seq<Row>, v: Variant, y: string)
    requires |rows| > 0 && Valid(g0)
    requires RecordsMatch(g0, rows[..|rows| - 1], v)
    requires forall id :: id in g0.order <==> id != "" && id in Ids(rows[..|rows| - 1])
    requires y in Step(g0, rows[|rows| - 1], v).byId
    ensures y in Ids(rows) && Step(g0, rows[|rows| - 1], v).byId[y] == ExpectedPerson(rows, y, v)
  {
    var init := rows[..|rows| - 1];
    var row := rows[|rows| - 1];
    if y != RowId(row) {
      ExpectedOtherId(rows, y, v);
    } else if y in g0.byId {
      StepExisting(g0, row, v);
      ExpectedExistingId(rows, v, g0.byId[y]);
    } else {
      StepNew(g0, row, v);
      ExpectedNewId(rows, v);
    }
  }

  /** A row of another id changes nothing about the expected record of `y`. */
  lemma ExpectedOtherId(rows: seq<Row>, y: string, v: Variant)
    requires |rows| > 0 && y in Ids(rows[..|rows| - 1]) && y != RowId(rows[|rows| - 1])
    ensures y in Ids(rows)
    ensures ExpectedPerson(rows, y, v) == ExpectedPerson(rows[..|rows| - 1], y, v)
  {
    var init := rows[..|rows| - 1];
    IdsSnoc(rows);
    FirstIndexAppend(Ids(init), [RowId(rows[|rows| - 1])], y);
    AliasSnoc(rows, y);
  }

  lemma StepExisting(g: Grouping, row: Row, v: Variant)
    requires Valid(g) && RowId(row) in g.byId
    ensures var p := g.byId[RowId(row)];
      Step(g, row, v).byId[RowId(row)]
        == p.(aliases := if Val(row.alias) == "" then p.aliases else AddUnique(p.aliases, Val(row.alias)))
  {
  }

  lemma StepNew(g: Grouping, row: Row, v: Variant)
    requires Valid(g) && RowId(row) != "" && RowId(row) !in g.byId
    ensures var p := NewPerson(row, RowId(row), v);
      Step(g, row, v).byId[RowId(row)]
        == p.(aliases := if Val(row.alias) == "" then [] else [Val(row.alias)])
  {
  }

  /** The last row of an id seen before only adds its alias to the expected record. */
  lemma ExpectedExistingId(rows: seq<Row>, v: Variant, p0: Person)
    requires |rows| > 0
    requires var id := RowId(rows[|rows| - 1]);
      id in Ids(rows[..|rows| - 1]) && p0 == ExpectedPerson(rows[..|rows| - 1], id, v)
    ensures var id := RowId(rows[|rows| - 1]);
      var alias := Val(rows[|rows| - 1].alias);
      id in Ids(rows)
      && ExpectedPerson(rows, id, v)
         == p0.(aliases := if alias == "" then p0.aliases else AddUnique(p0.aliases, alias))
  {
    var init := rows[..|rows| - 1];
    var row := rows[|rows| - 1];
    var id := RowId(row);
    IdsSnoc(rows);
    AliasSnoc(rows, id);
    DedupSnoc(AliasValues(init, id), Val(row.alias));
    FirstIndexAppend(Ids(init), [id], id);
    var k := FirstIndex(Ids(init), id);
    assert rows[k] == init[k];
  }

  /** The first row of an id is the one its expected record is built from. */
  lemma ExpectedNewId(rows: seq<Row>, v: Variant)
    requires |rows| > 0
    requires var id := RowId(rows[|rows| - 1]);
      id !in Ids(rows[..|rows| - 1])
    ensures var row := rows[|rows| - 1];
      var id := RowId(row);
      var p := NewPerson(row, id, v);
      id in Ids(rows)
      && ExpectedPerson(rows, id, v) == p.(aliases := if Val(row.alias) == "" then [] else [Val(row.alias)])
  {
    var init := rows[..|rows| - 1];
    var row := rows[|rows| - 1];
    var id := RowId(row);
    IdsSnoc(rows);
    FirstIndexOfNew(Ids(init), id);
    assert FirstIndex(Ids(rows), id) == |init|;
    AliasValuesUnseen(init, id);
    AliasSnoc(rows, id);
    DedupSnoc([], Val(row.alias));
    assert [] + [Val(row.alias)] == [Val(row.alias)];
  }

  /** An id no row carries has no alias values. */
  lemma {:induction false} AliasValuesUnseen(rows: seq<Row>, id: string)
    requires id !in Ids(rows)
    ensures AliasValues(rows, id) == []
  {
    if |rows| > 0 {
      IdsSnoc(rows);
      AliasValuesUnseen(rows[..|rows| - 1], id);
    }
  }

  /** The shape every record of the data layer has: a non-empty id and
      name, the page URL derived from the id, and distinct non-empty aliases. */
  ghost predicate WellFormed(p: Person) {
    && p.id != "" && p.name != ""
    && p.wikibaseUrl == WikibaseBaseUrl + p.id
    && NoDups(p.aliases) && "" !in p.aliases
  }

  lemma ExpectedWellFormed(rows: seq<Row>, id: string, v: Variant)
    requires id != "" && id in Ids(rows)
    ensures WellFormed(ExpectedPerson(rows, id, v))
  {
  }

  /** `Object.values(peopleMap)`: the records in the engine's key order. */
  function Values(g: Grouping): (r: seq<Person>)
    requires Valid(g)
    ensures forall i :: 0 <= i < |r| ==> r[i].id in g.byId && g.byId[r[i].id] == r[i]
    ensures PeopleIds(r) == KeyOrder(g.order)
  {
    var ks := KeyOrder(g.order);
    assert forall i :: 0 <= i < |ks| ==> ks[i] in g.byId by {
      forall i | 0 <= i < |ks| ensures ks[i] in g.byId {
        assert ks[i] in ks;
      }
    }
    RecordsAt(g, ks)
  }

  /** The records of the given keys, in the order of the keys. */
  function RecordsAt(g: Grouping, ks: seq<string>): (r: seq<Person>)
    requires Valid(g)
    requires forall i :: 0 <= i < |ks| ==> ks[i] in g.byId
    ensures forall i :: 0 <= i < |r| ==> r[i].id in g.byId && g.byId[r[i].id] == r[i]
    ensures PeopleIds(r) == ks
  {
    var r := seq(|ks|, i requires 0 <= i < |ks| => g.byId[ks[i]]);
    assert PeopleIds(r) == ks;
    r
  }

  /** Every record appears in the values, once. */
  lemma ValuesCover(g: Grouping)
    requires Valid(g)
    ensures var r := Values(g);
      && (forall id :: id in g.byId ==> exists i :: 0 <= i < |r| && r[i].id == id)
      && (forall i, j :: 0 <= i < j < |r| ==> r[i].id != r[j].id)
  {
    var r := Values(g);
    var ks := KeyOrder(g.order);
    forall id | id in g.byId ensures exists i :: 0 <= i < |r| && r[i].id == id {
      var i :| 0 <= i < |ks| && ks[i] == id;
      assert PeopleIds(r)[i] == id;
    }
    forall i, j | 0 <= i < j < |r| ensures r[i].id != r[j].id {
      assert PeopleIds(r)[i] == ks[i] && PeopleIds(r)[j] == ks[j];
    }
  }

  /** The fixed two-person family loaded when the response has no bindings. */
  function SampleData(): (r: seq<Person>)
    ensures |r| == 2 && r[0].id == "Q1" && r[1].id == "Q2"
    ensures forall i :: 0 <= i < |r| ==> r[i].wikibaseUrl == WikibaseBaseUrl + r[i].id
    ensures forall i :: 0 <= i < |r| ==> r[i].fatherId == "" && r[i].motherId == ""
  {
    [ Person("Q1", "John Smith", "", "", "+1950-05-15T00:00:00Z", "+2020-03-10T00:00:00Z", "1",
             "London, England", "Engineer", "Family patriarch", "", "",
             WikibaseBaseUrl + "Q1", ["Johnny Smith"]),
      Person("Q2", "Jane Smith", "", "", "+1955-08-20T00:00:00Z", "", "2",
             "London, England", "Teacher", "Family matriarch", "", "",
             WikibaseBaseUrl + "Q2", []) ]
  }

  /** The people grouped from the binding rows. */
  function PeopleOf(rows: seq<Row>, v: Variant): (r: seq<Person>)
    ensures forall p :: p in r ==> p.id in Ids(rows) && p == ExpectedPerson(rows, p.id, v)
    ensures forall id :: id != "" && id in Ids(rows) ==> exists i :: 0 <= i < |r| && r[i].id == id
    ensures forall i, j :: 0 <= i < j < |r| ==> r[i].id != r[j].id
    ensures forall p :: p in r ==> WellFormed(p)
  {
    var g := Group(rows, v);
    var r := Values(g);
    ValuesCover(g);
    GroupMembers(rows, v);
    PeopleOfRecords(rows, v);
    r
  }

  /** Each value of the fold is the expected, well-formed record of its id. */
  lemma PeopleOfRecords(rows: seq<Row>, v: Variant)
    ensures forall p :: p in Values(Group(rows, v)) ==>
      && p.id in Ids(rows) && p == ExpectedPerson(rows, p.id, v)
      && WellFormed(p)
  {
    var g := Group(rows, v);
    var r := Values(g);
    GroupRecords(rows, v);
    forall p | p in r ensures p.id in Ids(rows) && p == ExpectedPerson(rows, p.id, v) && WellFormed(p) {
      var i :| 0 <= i < |r| && r[i] == p;
      assert p.id in g.byId && g.byId[p.id] == p;
      ExpectedWellFormed(rows, p.id, v);
    }
  }

  /** `processSparqlResults(data)` of the data layer; `None` stands for a
      response without `results` or without `results.bindings`. */
  function ProcessResults(bindings: Option<seq<Row>>, v: Variant): (r: seq<Person>)
    ensures bindings.None? ==> r == SampleData()
    ensures bindings.None? ==> forall p :: p in r ==> p.fatherId == "" && p.motherId == ""
    ensures bindings.Some? ==> r == PeopleOf(bindings.value, v)
    ensures forall i, j :: 0 <= i < j < |r| ==> r[i].id != r[j].id
    ensures forall p :: p in r ==> WellFormed(p)
  {
    match bindings
    case None =>
      SampleWellFormed();
      SampleData()
    case Some(rows) =>
      PeopleOf(rows, v)
  }

  lemma SampleWellFormed()
    ensures forall p :: p in SampleData() ==> WellFormed(p)
    ensures SampleData()[0].id != SampleData()[1].id
  {
    var s := SampleData();
    assert s[0].aliases == ["Johnny Smith"];
  }

  /** With Wikibase item ids (`Q<digits>`, never array indices) the people
      come out in order of their first row. */
  lemma {:induction false} ProcessedInFirstSeenOrder(rows: seq<Row>, v: Variant)
    requires forall i :: 0 <= i < |rows| ==> RowId(rows[i]) == "" || IsQid(RowId(rows[i]))
    ensures PeopleIds(ProcessResults(Some(rows), v)) == Group(rows, v).order
    ensures FirstSeenOrder(Ids(rows), PeopleIds(ProcessResults(Some(rows), v)))
  {
    var g := Group(rows, v);
    GroupMembers(rows, v);
    GroupFirstSeen(rows, v);
    forall i | 0 <= i < |g.order| ensures !IsArrayIndex(g.order[i]) {
      assert g.order[i] in g.order;
      var k :| 0 <= k < |rows| && Ids(rows)[k] == g.order[i];
    }
    KeyOrderWithoutIndices(g.order);
  }

  /** The record without the image properties the data layer module drops. */
  function WithoutImages(p: Person): (q: Person)
    ensures q.imageValue == "" && q.wallPhotoValue == ""
    ensures q.(imageValue := p.imageValue, wallPhotoValue := p.wallPhotoValue) == p
  {
    p.(imageValue := "", wallPhotoValue := "")
  }

  /** Both copies of `processSparqlResults` produce the same people in the
      same order; they differ only in the image properties. */
  lemma VariantsAgree(bindings: Option<seq<Row>>)
    ensures var m := ProcessResults(bindings, ModuleVariant);
      var a := ProcessResults(bindings, AppVariant);
      |m| == |a| && forall i :: 0 <= i < |m| ==> m[i] == WithoutImages(a[i])
  {
    if bindings.Some? {
      VariantsAgreeOnRows(bindings.value);
    }
  }

  lemma VariantsAgreeOnRows(rows: seq<Row>)
    ensures var m := PeopleOf(rows, ModuleVariant);
      var a := PeopleOf(rows, AppVariant);
      |m| == |a| && forall i :: 0 <= i < |m| ==> m[i] == WithoutImages(a[i])
  {
    var m := PeopleOf(rows, ModuleVariant);
    var a := PeopleOf(rows, AppVariant);
    assert PeopleIds(m) == PeopleIds(a) by {
      GroupOrderVariants(rows);
    }
    forall i | 0 <= i < |m| ensures m[i] == WithoutImages(a[i]) {
      assert m[i].id == a[i].id;
      assert m[i] in m && a[i] in a;
      ExpectedVariants(rows, m[i].id);
    }
  }

  lemma ExpectedVariants(rows: seq<Row>, id: string)
    requires id in Ids(rows)
    ensures ExpectedPerson(rows, id, ModuleVariant) == WithoutImages(ExpectedPerson(rows, id, AppVariant))
  {
  }

  /** The key order of the fold does not depend on the variant. */
  lemma {:induction false} GroupOrderVariants(rows: seq<Row>)
    ensures Group(rows, ModuleVariant).order == Group(rows, AppVariant).order
  {
    if |rows| > 0 {
      var init := rows[..|rows| - 1];
      GroupOrderVariants(init);
      GroupMembers(init, ModuleVariant);
      GroupMembers(init, AppVariant);
    }
  }

  /** The application's state after `processSparqlResults`: the people and
      the selected person. */
  datatype AppState = AppState(people: seq<Person>, selected: Option<Person>)

  /** `processSparqlResults` of the application: it stores the people (or
      the sample family) and selects the first person when there is one,
      keeping the previous selection otherwise. */
  function AppProcessResults(bindings: Option<seq<Row>>, s: AppState): (r: AppState)
    ensures r.people == ProcessResults(bindings, AppVariant)
    ensures |r.people| > 0 ==> r.selected == Some(r.people[0])
    ensures |r.people| == 0 ==> r.selected == s.selected
    ensures bindings.None? ==> r.selected.Some? && r.selected.value.id == "Q1"
  {
    var people := ProcessResults(bindings, AppVariant);
    AppState(people, if |people| > 0 then Some(people[0]) else s.selected)
  }

  /** Later rows never overwrite the scalar fields of a record: they can only
      add aliases. */
  lemma FirstRowWins(rows: seq<Row>, more: seq<Row>, v: Variant, id: string)
    requires id in Group(rows, v).byId
    ensures id in Group(rows + more, v).byId
    ensures var later := Group(rows + more, v).byId[id];
      later == Group(rows, v).byId[id].(aliases := later.aliases)
  {
    var all := rows + more;
    RecordOf(rows, v, id);
    IdsAppend(rows, more);
    KeyOf(all, v, id);
    RecordOf(all, v, id);
    ExpectedPrefix(rows, more, v, id);
  }

  lemma IdsAppend(rows: seq<Row>, more: seq<Row>)
    ensures Ids(rows + more) == Ids(rows) + Ids(more)
  {
  }

  lemma RecordOf(rows: seq<Row>, v: Variant, id: string)
    requires id in Group(rows, v).byId
    ensures id != "" && id in Ids(rows) && Group(rows, v).byId[id] == ExpectedPerson(rows, id, v)
  {
    GroupRecords(rows, v);
  }

  lemma KeyOf(rows: seq<Row>, v: Variant, id: string)
    requires id != "" && id in Ids(rows)
    ensures id in Group(rows, v).byId
  {
    GroupMembers(rows, v);
  }

  lemma ExpectedPrefix(rows: seq<Row>, more: seq<Row>, v: Variant, id: string)
    requires id in Ids(rows)
    ensures id in Ids(rows + more)
    ensures var later := ExpectedPerson(rows + more, id, v);
      later == ExpectedPerson(rows, id, v).(aliases := later.aliases)
  {
    var all := rows + more;
    IdsAppend(rows, more);
    FirstIndexAppend(Ids(rows), Ids(more), id);
    var k := FirstIndex(Ids(rows), id);
    assert all[k] == rows[k];
  }
}
