/** `ImageService` (`modules/ImageService.js`): the local-asset images of a
    person, probed in a fixed order and memoised in two caches. Whether an
    image loads is an oracle `loads: string -> bool`; the caches are an
    explicit state value threaded through the calls. */
module Images {
  import opened Common
  import opened Strings
  import opened Js

  /** Extensions tried for every file name, in this order. */
  const Extensions: seq<string> := [".jpg", ".jpeg", ".png", ".webp"]

  /** Additional images are numbered 1 up to this bound. */
  const MaxExtras: nat := 10

  function AssetUrl(filename: string, ext: string): string {
    "assets/" + filename + ext
  }

  /** The URLs tried for one file name, in probing order. */
  function AssetUrls(filename: string, exts: seq<string>): (r: seq<string>)
    ensures |r| == |exts|
    ensures forall i :: 0 <= i < |r| ==> r[i] == AssetUrl(filename, exts[i])
  {
    if |exts| == 0 then [] else [AssetUrl(filename, exts[0])] + AssetUrls(filename, exts[1..])
  }

  /** The key under which the test result of a file name is memoised. */
  function TestKey(filename: string): string {
    "test_" + filename
  }

  lemma TestKeyInjective(f: string, g: string)
    requires TestKey(f) == TestKey(g)
    ensures f == g
  {
    assert f == TestKey(f)[5..] && g == TestKey(g)[5..];
  }

  /** File name of the `i`-th additional image of a person. */
  function ExtraName(personId: string, i: nat): string {
    personId + "_" + NatToString(i)
  }

  /** What a sequence of load attempts found, and which URLs it tried. */
  datatype Probe = Probe(url: Option<string>, probed: seq<string>)

  /** Try `urls` in order until one loads. */
  function ProbeFrom(urls: seq<string>, loads: string -> bool): (r: Probe)
    ensures |r.probed| <= |urls| && r.probed == urls[..|r.probed|]
    ensures r.url.Some? ==> |r.probed| > 0 && r.url.value == r.probed[|r.probed| - 1] && loads(r.url.value)
    ensures r.url.None? ==> r.probed == urls
    ensures forall i :: 0 <= i < |r.probed| && r.probed[i] != r.url.GetOr("") ==> !loads(r.probed[i])
    ensures r.url.None? <==> forall i :: 0 <= i < |urls| ==> !loads(urls[i])
  {
    if |urls| == 0 then Probe(None, [])
    else if loads(urls[0]) then Probe(Some(urls[0]), [urls[0]])
    else
      var rest := ProbeFrom(urls[1..], loads);
      assert forall i :: 1 <= i < |urls| ==> urls[i] == urls[1..][i - 1];
      Probe(rest.url, [urls[0]] + rest.probed)
  }

  /** The first URL of `urls` that loads: the cache-free meaning of a probe. */
  function FirstLoading(urls: seq<string>, loads: string -> bool): Option<string> {
    if |urls| == 0 then None
    else if loads(urls[0]) then Some(urls[0])
    else FirstLoading(urls[1..], loads)
  }

  /** A probe finds exactly the first URL that loads. */
  lemma {:induction false} ProbeFindsFirst(urls: seq<string>, loads: string -> bool)
    ensures ProbeFrom(urls, loads).url == FirstLoading(urls, loads)
  {
    if |urls| > 0 && !loads(urls[0]) {
      ProbeFindsFirst(urls[1..], loads);
    }
  }

  /** The image found for a file name when nothing is memoised. */
  function Resolve(filename: string, loads: string -> bool): Option<string> {
    ProbeFrom(AssetUrls(filename, Extensions), loads).url
  }

  /** `imageCache` (person id to image list) and `imageTests` (test key to
      the URL found, `None` for a negative result). */
  datatype ImageState = ImageState(cache: map<string, seq<string>>, tests: map<string, Option<string>>)

  const Empty := ImageState(map[], map[])

  datatype Tested = Tested(url: Option<string>, state: ImageState, probed: seq<string>)

  /** The inner `testImage(filename)`: a memoised answer is returned without
      loading anything; otherwise the extensions are probed and the outcome,
      positive or negative, is memoised. */
  function TestImage(st: ImageState, filename: string, loads: string -> bool): (r: Tested)
    ensures r.state.cache == st.cache
    ensures r.state.tests == st.tests[TestKey(filename) := r.url]
    ensures TestKey(filename) in st.tests ==> r.url == st.tests[TestKey(filename)] && r.probed == []
    ensures TestKey(filename) !in st.tests ==>
              (r.url == Resolve(filename, loads) && r.probed == ProbeFrom(AssetUrls(filename, Extensions), loads).probed)
  {
    var key := TestKey(filename);
    if key in st.tests then
      assert st.tests[key := st.tests[key]] == st.tests;
      Tested(st.tests[key], st, [])
    else
      var p := ProbeFrom(AssetUrls(filename, Extensions), loads);
      Tested(p.url, st.(tests := st.tests[key := p.url]), p.probed)
  }

  datatype Collected = Collected(images: seq<string>, state: ImageState, probed: seq<string>)

  /** The loop over additional images `i`, `i + 1`, ... up to `MaxExtras`,
      stopping at the first index that has no image. */
  function Extras(st: ImageState, personId: string, i: nat, loads: string -> bool): (r: Collected)
    ensures r.state.cache == st.cache
    ensures |r.images| <= MaxExtras + 1 - i || (i > MaxExtras && r.images == [])
    decreases MaxExtras + 1 - i
  {
    if i > MaxExtras then Collected([], st, [])
    else
      var t := TestImage(st, ExtraName(personId, i), loads);
      match t.url
      case None => Collected([], t.state, t.probed)
      case Some(u) =>
        var rest := Extras(t.state, personId, i + 1, loads);
        Collected([u] + rest.images, rest.state, t.probed + rest.probed)
  }

  function OptionList(o: Option<string>): (r: seq<string>)
    ensures o.None? ==> r == []
    ensures o.Some? ==> r == [o.value]
  {
    if o.Some? then [o.value] else []
  }

  /** `getAllPersonImages(personId)`: the cached list, or the main image (if
      any) followed by the additional images, which is then cached. */
  function AllPersonImages(st: ImageState, personId: string, loads: string -> bool): (r: Collected)
    ensures personId in r.state.cache && r.state.cache[personId] == r.images
    ensures forall p :: p != personId ==> (p in r.state.cache <==> p in st.cache)
    ensures forall p :: p != personId && p in st.cache ==> r.state.cache[p] == st.cache[p]
    ensures personId in st.cache ==> r == Collected(st.cache[personId], st, [])
    ensures personId !in st.cache && TestKey(personId) !in st.tests ==>
              |r.probed| > 0 && r.probed[0] == AssetUrl(personId, ".jpg")
  {
    if personId in st.cache then
      assert st.cache[personId := st.cache[personId]] == st.cache;
      Collected(st.cache[personId], st, [])
    else
      var main := TestImage(st, personId, loads);
      var extras := Extras(main.state, personId, 1, loads);
      var images := OptionList(main.url) + extras.images;
      Collected(images, extras.state.(cache := extras.state.cache[personId := images]), main.probed + extras.probed)
  }

  /** The run of consecutive indices from `i` (up to `MaxExtras`) for which
      `found` has an image: the stop rule of the additional-image loop. */
  function Run(found: nat -> Option<string>, i: nat): seq<string>
    decreases MaxExtras + 1 - i
  {
    if i > MaxExtras then []
    else match found(i)
      case None => []
      case Some(u) => [u] + Run(found, i + 1)
  }

  /** The image found for additional index `i` when nothing is memoised. */
  function ExtraFound(personId: string, loads: string -> bool): nat -> Option<string> {
    (i: nat) => Resolve(ExtraName(personId, i), loads)
  }

  /** The images of a person when nothing is memoised: the main image if it
      exists, then the consecutive additional images from index 1. */
  function RefImages(personId: string, loads: string -> bool): seq<string> {
    OptionList(Resolve(personId, loads)) + Run(ExtraFound(personId, loads), 1)
  }

  /** The additional images are those of indices `i .. i + k - 1` for some
      `k`, every one of which exists, and either the bound is reached or
      index `i + k` has no image. */
  lemma RunContiguous(found: nat -> Option<string>, i: nat)
    ensures var r := Run(found, i);
            && (i <= MaxExtras + 1 ==> |r| <= MaxExtras + 1 - i)
            && (forall j :: 0 <= j < |r| ==> found(i + j) == Some(r[j]))
            && (i + |r| <= MaxExtras ==> found(i + |r|).None?)
  {
    RunLength(found, i);
    RunStop(found, i);
    var r := Run(found, i);
    forall j | 0 <= j < |r| ensures found(i + j) == Some(r[j]) {
      RunFound(found, i, j);
    }
  }

  lemma {:induction false} RunLength(found: nat -> Option<string>, i: nat)
    ensures i <= MaxExtras + 1 ==> |Run(found, i)| <= MaxExtras + 1 - i
    decreases MaxExtras + 1 - i
  {
    if i <= MaxExtras {
      RunLength(found, i + 1);
    }
  }

  lemma {:induction false} RunFound(found: nat -> Option<string>, i: nat, j: nat)
    requires j < |Run(found, i)|
    ensures found(i + j) == Some(Run(found, i)[j])
    decreases j
  {
    if j > 0 {
      RunFound(found, i + 1, j - 1);
      assert i + j == (i + 1) + (j - 1);
    }
  }

  lemma {:induction false} RunStop(found: nat -> Option<string>, i: nat)
    ensures var k := |Run(found, i)|;
            i + k <= MaxExtras ==> found(i + k).None?
    decreases MaxExtras + 1 - i
  {
    if i <= MaxExtras && found(i).Some? {
      RunStop(found, i + 1);
    }
  }

  /** The extras of a person as the contiguous run of existing additional images. */
  lemma ExtrasContiguous(personId: string, loads: string -> bool)
    ensures var r := Run(ExtraFound(personId, loads), 1);
            && |r| <= MaxExtras
            && (forall j :: 0 <= j < |r| ==> Resolve(ExtraName(personId, 1 + j), loads) == Some(r[j]))
            && (1 + |r| <= MaxExtras ==> Resolve(ExtraName(personId, 1 + |r|), loads).None?)
  {
    var found := ExtraFound(personId, loads);
    RunContiguous(found, 1);
    var r := Run(found, 1);
    forall j | 0 <= j < |r| ensures Resolve(ExtraName(personId, 1 + j), loads) == Some(r[j]) {
      assert found(1 + j) == Some(r[j]);
    }
  }

  /** At most one main image and ten additional ones. */
  lemma AtMostElevenImages(personId: string, loads: string -> bool)
    ensures |RefImages(personId, loads)| <= 1 + MaxExtras
  {
    ExtrasContiguous(personId, loads);
  }

  /** A missing main image does not stop the additional images from being found. */
  lemma MainImageOptional(personId: string, loads: string -> bool)
    requires Resolve(personId, loads).None?
    ensures RefImages(personId, loads) == Run(ExtraFound(personId, loads), 1)
    ensures Resolve(ExtraName(personId, 1), loads).Some? ==>
              RefImages(personId, loads)[0] == Resolve(ExtraName(personId, 1), loads).value
  {
  }

  /** Every memoised answer is the one an unmemoised probe would give. */
  ghost predicate Coherent(st: ImageState, loads: string -> bool) {
    && (forall f :: TestKey(f) in st.tests ==> st.tests[TestKey(f)] == Resolve(f, loads))
    && (forall p :: p in st.cache ==> st.cache[p] == RefImages(p, loads))
  }

  lemma TestImageCoherent(st: ImageState, filename: string, loads: string -> bool)
    requires Coherent(st, loads)
    ensures TestImage(st, filename, loads).url == Resolve(filename, loads)
    ensures Coherent(TestImage(st, filename, loads).state, loads)
  {
    var r := TestImage(st, filename, loads);
    forall f | TestKey(f) in r.state.tests ensures r.state.tests[TestKey(f)] == Resolve(f, loads) {
      if TestKey(f) == TestKey(filename) {
        TestKeyInjective(f, filename);
      }
    }
  }

  lemma {:induction false} ExtrasCoherent(st: ImageState, personId: string, i: nat, loads: string -> bool)
    requires Coherent(st, loads)
    ensures Extras(st, personId, i, loads).images == Run(ExtraFound(personId, loads), i)
    ensures Coherent(Extras(st, personId, i, loads).state, loads)
    decreases MaxExtras + 1 - i
  {
    if i <= MaxExtras {
      var t := TestImage(st, ExtraName(personId, i), loads);
      TestImageCoherent(st, ExtraName(personId, i), loads);
      if t.url.Some? {
        ExtrasCoherent(t.state, personId, i + 1, loads);
      }
    }
  }

  /** With memoised answers that agree with the oracle, `getAllPersonImages`
      returns exactly the unmemoised image list, and the caches stay
      agreeing: memoisation never changes an answer. */
  lemma AllPersonImagesCoherent(st: ImageState, personId: string, loads: string -> bool)
    requires Coherent(st, loads)
    ensures AllPersonImages(st, personId, loads).images == RefImages(personId, loads)
    ensures Coherent(AllPersonImages(st, personId, loads).state, loads)
  {
    if personId !in st.cache {
      var main := TestImage(st, personId, loads);
      TestImageCoherent(st, personId, loads);
      ExtrasCoherent(main.state, personId, 1, loads);
    }
  }

  /** Asking again for the same person loads nothing and changes nothing. */
  lemma SecondCallProbesNothing(st: ImageState, personId: string, loads: string -> bool)
    ensures var r1 := AllPersonImages(st, personId, loads);
            var r2 := AllPersonImages(r1.state, personId, loads);
            r2.probed == [] && r2.images == r1.images && r2.state == r1.state
  {
  }

  /** A second test of the same file name, whatever its outcome, loads nothing. */
  lemma TestMemoised(st: ImageState, filename: string, loads: string -> bool)
    ensures var t1 := TestImage(st, filename, loads);
            var t2 := TestImage(t1.state, filename, loads);
            t2.probed == [] && t2.url == t1.url && t2.state == t1.state
  {
  }

  datatype Best = Best(url: Option<string>, state: ImageState, probed: seq<string>)

  /** `getBestImageUrl(personId)`: the first of the person's images, or `null`. */
  function BestImageUrl(st: ImageState, personId: string, loads: string -> bool): (r: Best)
    ensures var all := AllPersonImages(st, personId, loads);
            && r.state == all.state && r.probed == all.probed
            && (r.url.None? <==> all.images == [])
            && (r.url.Some? ==> r.url.value == all.images[0])
  {
    var all := AllPersonImages(st, personId, loads);
    Best(if |all.images| > 0 then Some(all.images[0]) else None, all.state, all.probed)
  }

  /** The best image is the main image when it exists, else the first
      additional image. */
  lemma BestIsMainOrFirstExtra(st: ImageState, personId: string, loads: string -> bool)
    requires Coherent(st, loads)
    ensures Resolve(personId, loads).Some? ==>
              BestImageUrl(st, personId, loads).url == Resolve(personId, loads)
    ensures Resolve(personId, loads).None? ==>
              BestImageUrl(st, personId, loads).url == Resolve(ExtraName(personId, 1), loads)
  {
    AllPersonImagesCoherent(st, personId, loads);
    ExtrasContiguous(personId, loads);
  }

  /** `clearCache()`: both maps are emptied. */
  function ClearCache(st: ImageState): (r: ImageState)
    ensures forall p :: p !in r.cache
    ensures forall k :: k !in r.tests
  {
    Empty
  }

  /** Empty caches agree with every oracle, so after `clearCache` answers
      follow the current state of the assets. */
  lemma ClearedCoherent(st: ImageState, loads: string -> bool)
    ensures Coherent(ClearCache(st), loads)
  {
  }

  /** After `clearCache` the next request loads again, starting with the main `.jpg`. */
  lemma ClearThenReprobe(st: ImageState, personId: string, loads: string -> bool)
    ensures var r := AllPersonImages(ClearCache(st), personId, loads);
            |r.probed| > 0 && r.probed[0] == AssetUrl(personId, ".jpg")
  {
  }

  /** The gallery's "next" button: `(i + 1) % n`. */
  function GalleryNext(i: int, n: int): (r: int)
    requires n > 1 && 0 <= i < n
    ensures 0 <= r < n
    ensures r == if i == n - 1 then 0 else i + 1
  {
    ModOfSmall(i + 1, n);
    Rem(i + 1, n)
  }

  /** The gallery's "previous" button: `(i - 1 + n) % n`. */
  function GalleryPrev(i: int, n: int): (r: int)
    requires n > 1 && 0 <= i < n
    ensures 0 <= r < n
    ensures r == if i == 0 then n - 1 else i - 1
  {
    ModOfSmall(i - 1 + n, n);
    Rem(i - 1 + n, n)
  }

  /** `a % n` for `0 <= a < 2n`. */
  lemma ModOfSmall(a: int, n: int)
    requires n > 1 && 0 <= a < 2 * n
    ensures a % n == if a < n then a else a - n
  {
  }

  lemma GalleryPrevNextInverse(i: int, n: int)
    requires n > 1 && 0 <= i < n
    ensures GalleryPrev(GalleryNext(i, n), n) == i
    ensures GalleryNext(GalleryPrev(i, n), n) == i
  {
  }

  /** `k` presses of "next" starting at `i`. */
  function NextPresses(i: int, n: int, k: nat): (r: int)
    requires n > 1 && 0 <= i < n
    ensures 0 <= r < n
  {
    if k == 0 then i else GalleryNext(NextPresses(i, n, k - 1), n)
  }

  /** Up to `n` presses of "next" advance by one each and wrap past the last
      image to the first; after `n` presses the gallery is back where it
      started. */
  lemma {:induction false} NextPressesWrap(i: int, n: int, k: nat)
    requires n > 1 && 0 <= i < n && k <= n
    ensures NextPresses(i, n, k) == if i + k < n then i + k else i + k - n
    ensures k == n ==> NextPresses(i, n, k) == i
  {
    if k > 0 {
      NextPressesWrap(i, n, k - 1);
    }
  }

  /** What the profile page derives from the image list: the profile image
      and the number of additional images (`-1` when there are none). */
  datatype Profile = Profile(imageUrl: Option<string>, additionalCount: int)

  function ProfileImages(images: seq<string>): (r: Profile)
    ensures r.imageUrl.Some? <==> |images| > 0
    ensures r.imageUrl.Some? ==> r.imageUrl.value == images[0]
    ensures r.additionalCount + 1 == |images|
  {
    Profile(if |images| > 0 then Some(images[0]) else None, |images| - 1)
  }

  /** The profile image is the person's best image, and the count of extra
      photos is the number of additional images found after it. */
  lemma ProfileAgreesWithBest(st: ImageState, personId: string, loads: string -> bool)
    requires Coherent(st, loads)
    ensures var p := ProfileImages(AllPersonImages(st, personId, loads).images);
            && p.imageUrl == BestImageUrl(st, personId, loads).url
            && p.additionalCount == |RefImages(personId, loads)| - 1
  {
    AllPersonImagesCoherent(st, personId, loads);
  }
}
