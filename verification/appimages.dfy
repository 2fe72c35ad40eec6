/** `getBestImageUrl(imageValue, personId, size)` of the application class
    (`app.js`): a Wikimedia Commons candidate derived from the person's
    image property, then local assets, memoised per person and size. Loading
    is the oracle `loads`; `encodeURIComponent` is the parameter `encode`. */
module AppImages {
  import opened Common
  import opened Strings
  import opened Js
  import opened Images
  import opened Qid

  /** The Wikibase redirect that serves a Commons file at a given width. */
  const FilePathPrefix := "https://masssly.wikibase.cloud/wiki/Special:FilePath/"

  /** Extensions tried for local assets, in this order. */
  const LocalExtensions: seq<string> := [".jpg", ".jpeg", ".png", ".webp", ".gif"]

  function FilePathUrl(filename: string, size: string): string {
    FilePathPrefix + filename + "?width=" + size
  }

  /** The URL derived from the image property, if any: a `File:` name, a
      Commons URL (its last path segment), or any other `http` URL as is.
      An empty value (JavaScript `null`) has no candidate. */
  function CommonsCandidate(imageValue: string, size: string, encode: string -> string): (r: Option<string>)
    ensures imageValue == "" ==> r.None?
    ensures Includes(imageValue, "File:") ==>
              r == Some(FilePathUrl(encode(Trim(ReplaceFirst(imageValue, "File:", ""))), size))
    ensures !Includes(imageValue, "File:") && Includes(imageValue, "commons.wikimedia.org") ==>
              r == Some(FilePathUrl(LastSegment(imageValue), size))
    ensures r.None? <==> imageValue == "" || (!Includes(imageValue, "File:")
                                              && !Includes(imageValue, "commons.wikimedia.org")
                                              && !StartsWith(imageValue, "http"))
  {
    if imageValue == "" then None
    else if Includes(imageValue, "File:") then
      Some(FilePathUrl(encode(Trim(ReplaceFirst(imageValue, "File:", ""))), size))
    else if Includes(imageValue, "commons.wikimedia.org") then
      Some(FilePathUrl(LastSegment(imageValue), size))
    else if StartsWith(imageValue, "http") then Some(imageValue)
    else None
  }

  /** Replacing a pattern that starts the string removes that prefix. */
  lemma ReplacePrefix(pat: string, rest: string)
    ensures Includes(pat + rest, pat)
    ensures ReplaceFirst(pat + rest, pat, "") == rest
  {
    var v := pat + rest;
    assert v[0..|pat|] == pat;
    assert MatchAt(v, pat, 0);
    assert IndexOf(v, pat) == Some(0);
    assert v[|pat|..] == rest;
  }

  /** A property value `File:<name>` becomes the FilePath URL of the
      encoded, trimmed name. */
  lemma FileValueCandidate(name: string, size: string, encode: string -> string)
    ensures CommonsCandidate("File:" + name, size, encode) == Some(FilePathUrl(encode(Trim(name)), size))
  {
    ReplacePrefix("File:", name);
  }

  /** `<personId>_<size>`. */
  function CacheKey(personId: string, size: string): string {
    personId + "_" + size
  }

  /** In the cache key of an item id the first `_` follows the id. */
  lemma KeySeparator(a: string, s: string)
    requires IsQid(a)
    ensures CacheKey(a, s)[|a|] == '_'
    ensures forall j :: 0 <= j < |a| ==> CacheKey(a, s)[j] != '_'
  {
    forall j | 0 <= j < |a| ensures CacheKey(a, s)[j] != '_' {
      if j > 0 {
        assert IsDigit(a[1..][j - 1]);
      }
    }
  }

  /** For Wikibase item ids the cache key determines both the id and the size. */
  lemma CacheKeyInjective(a: string, s: string, b: string, t: string)
    requires IsQid(a) && IsQid(b)
    requires CacheKey(a, s) == CacheKey(b, t)
    ensures a == b && s == t
  {
    var k := CacheKey(a, s);
    KeySeparator(a, s);
    KeySeparator(b, t);
    assert |a| == |b|;
    assert a == k[..|a|] && b == k[..|b|];
    assert s == k[|a| + 1..] && t == k[|b| + 1..];
  }

  datatype Found = Found(url: Option<string>, cache: map<string, Option<string>>, probed: seq<string>)

  /** The answer when nothing is memoised: the candidate if it loads, else
      the first local asset that loads, else nothing. */
  function Pick(imageValue: string, personId: string, size: string,
                encode: string -> string, loads: string -> bool): Option<string>
  {
    match CommonsCandidate(imageValue, size, encode)
    case Some(c) => if loads(c) then Some(c) else FirstLoading(AssetUrls(personId, LocalExtensions), loads)
    case None => FirstLoading(AssetUrls(personId, LocalExtensions), loads)
  }

  /** `getBestImageUrl`: a memoised answer (even `null`) is returned without
      loading anything; otherwise the candidate is tried, then the local
      assets, and the outcome, `null` included, is memoised. */
  function BestImageUrl(cache: map<string, Option<string>>, imageValue: string, personId: string,
                        size: string, encode: string -> string, loads: string -> bool): (r: Found)
    ensures CacheKey(personId, size) in r.cache && r.cache[CacheKey(personId, size)] == r.url
    ensures forall k :: k != CacheKey(personId, size) ==> (k in r.cache <==> k in cache)
    ensures forall k :: k != CacheKey(personId, size) && k in cache ==> r.cache[k] == cache[k]
    ensures CacheKey(personId, size) in cache ==> r == Found(cache[CacheKey(personId, size)], cache, [])
    ensures CacheKey(personId, size) !in cache ==> r.url == Pick(imageValue, personId, size, encode, loads)
    ensures r.url.Some? && CacheKey(personId, size) !in cache ==> loads(r.url.value)
  {
    var key := CacheKey(personId, size);
    if key in cache then
      assert cache[key := cache[key]] == cache;
      Found(cache[key], cache, [])
    else
      var candidate := CommonsCandidate(imageValue, size, encode);
      if candidate.Some? && loads(candidate.value) then
        Found(candidate, cache[key := candidate], [candidate.value])
      else
        var local := ProbeFrom(AssetUrls(personId, LocalExtensions), loads);
        ProbeFindsFirst(AssetUrls(personId, LocalExtensions), loads);
        Found(local.url, cache[key := local.url], OptionList(candidate) + local.probed)
  }

  /** The candidate, when it loads, wins over every local asset; otherwise
      the local assets are tried in extension order. */
  lemma CandidatePriority(imageValue: string, personId: string, size: string,
                          encode: string -> string, loads: string -> bool)
    ensures var c := CommonsCandidate(imageValue, size, encode);
            && (c.Some? && loads(c.value) ==> Pick(imageValue, personId, size, encode, loads) == c)
            && (c.None? || !loads(c.value) ==>
                  Pick(imageValue, personId, size, encode, loads) == ProbeFrom(AssetUrls(personId, LocalExtensions), loads).url)
  {
    ProbeFindsFirst(AssetUrls(personId, LocalExtensions), loads);
  }

  /** Nothing loads: the answer is `null`, and `null` is what gets memoised. */
  lemma NothingLoads(cache: map<string, Option<string>>, imageValue: string, personId: string,
                     size: string, encode: string -> string, loads: string -> bool)
    requires CacheKey(personId, size) !in cache
    requires forall u :: !loads(u)
    ensures BestImageUrl(cache, imageValue, personId, size, encode, loads).url.None?
    ensures BestImageUrl(cache, imageValue, personId, size, encode, loads).cache[CacheKey(personId, size)].None?
  {
    ProbeFindsFirst(AssetUrls(personId, LocalExtensions), loads);
  }

  /** A second request for the same person and size loads nothing and
      returns the first answer, `null` included, even if the image property
      or the assets changed in between. */
  lemma SecondCallUsesCache(cache: map<string, Option<string>>, v1: string, v2: string, personId: string,
                            size: string, encode: string -> string, loads1: string -> bool, loads2: string -> bool)
    ensures var r1 := BestImageUrl(cache, v1, personId, size, encode, loads1);
            var r2 := BestImageUrl(r1.cache, v2, personId, size, encode, loads2);
            r2.url == r1.url && r2.probed == [] && r2.cache == r1.cache
  {
  }

  /** Every memoised answer for an item id is the one an unmemoised request
      would give for that person's image property. */
  ghost predicate Coherent(cache: map<string, Option<string>>, imageOf: string -> string,
                           encode: string -> string, loads: string -> bool) {
    forall id, size :: IsQid(id) && CacheKey(id, size) in cache ==>
      cache[CacheKey(id, size)] == Pick(imageOf(id), id, size, encode, loads)
  }

  /** Memoisation never changes an answer as long as each person's image
      property and the assets stay the same. */
  lemma BestImageUrlCoherent(cache: map<string, Option<string>>, imageOf: string -> string, personId: string,
                             size: string, encode: string -> string, loads: string -> bool)
    requires IsQid(personId)
    requires Coherent(cache, imageOf, encode, loads)
    ensures var r := BestImageUrl(cache, imageOf(personId), personId, size, encode, loads);
            && r.url == Pick(imageOf(personId), personId, size, encode, loads)
            && Coherent(r.cache, imageOf, encode, loads)
  {
    var r := BestImageUrl(cache, imageOf(personId), personId, size, encode, loads);
    forall id, sz | IsQid(id) && CacheKey(id, sz) in r.cache
      ensures r.cache[CacheKey(id, sz)] == Pick(imageOf(id), id, sz, encode, loads)
    {
      if CacheKey(id, sz) == CacheKey(personId, size) {
        CacheKeyInjective(id, sz, personId, size);
      }
    }
  }
}
