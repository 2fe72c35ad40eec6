/** The person record shared by the data layer, the tree builder, the image
    services and the search list. Optional text fields use the empty string
    for JavaScript's `null`/`undefined`: every consumer in the application
    tests them for truthiness, which treats the three alike. */
module People {

  datatype Person = Person(
    id: string,
    name: string,
    fatherId: string,
    motherId: string,
    birthDate: string,
    deathDate: string,
    birthOrder: string,
    residence: string,
    occupation: string,
    description: string,
    imageValue: string,
    wallPhotoValue: string,
    wikibaseUrl: string,
    aliases: seq<string>)

  /** Prefix of a person's page on the Wikibase instance. */
  const WikibaseBaseUrl: string := "https://masssly.wikibase.cloud/wiki/Item:"

  /** The ids of a list of people, in order. */
  function PeopleIds(people: seq<Person>): (r: seq<string>)
    ensures |r| == |people| && forall i :: 0 <= i < |r| ==> r[i] == people[i].id
  {
    seq(|people|, i requires 0 <= i < |people| => people[i].id)
  }
}
