/** `Utils.qidFromUrl` (`js/utils.js`): the Wikibase item id at the end of
    an entity URL. */
module Qid {
  import opened Common
  import opened Strings

  /** `Q` followed by one or more ASCII digits. */
  predicate IsQid(s: string) {
    |s| >= 2 && s[0] == 'Q' && AllDigits(s[1..])
  }

  /** The pattern `\/(Q\d+)$` matches with its `/` at position `i`. */
  predicate QidMatchAt(url: string, i: int) {
    0 <= i < |url| && url[i] == '/' && IsQid(url[i + 1..])
  }

  /** `qidFromUrl(url)`: `null` for the empty URL; the `Q<digits>` segment
      when the URL ends with `/Q<digits>`; the URL itself otherwise. */
  function QidFromUrl(url: string): (r: Option<string>)
    ensures r.None? <==> url == ""
    ensures forall i :: QidMatchAt(url, i) ==> r == Some(url[i + 1..])
    ensures url != "" && (forall i :: !QidMatchAt(url, i)) ==> r == Some(url)
    ensures (exists i :: QidMatchAt(url, i)) ==> IsQid(r.value) && '/' !in r.value
  {
    if url == "" then None
    else
      var seg := LastSegment(url);
      forall i | QidMatchAt(url, i) ensures seg == url[i + 1..] && |seg| < |url| && IsQid(seg) {
        MatchIsLastSegment(url, i);
      }
      if |seg| < |url| && IsQid(seg) then
        assert QidMatchAt(url, |url| - |seg| - 1);
        QidHasNoSlash(seg);
        Some(seg)
      else Some(url)
  }

  /** A match of the pattern is the URL's last segment. */
  lemma MatchIsLastSegment(url: string, i: int)
    requires QidMatchAt(url, i)
    ensures LastSegment(url) == url[i + 1..] && |LastSegment(url)| < |url| && IsQid(LastSegment(url))
  {
    QidHasNoSlash(url[i + 1..]);
    LastSegmentAfter(url, i);
  }

  lemma QidHasNoSlash(s: string)
    requires IsQid(s)
    ensures '/' !in s
  {
    forall k | 0 <= k < |s| ensures s[k] != '/' {
      if k > 0 {
        assert IsDigit(s[1..][k - 1]);
      }
    }
  }

  /** Applying `qidFromUrl` to its own result changes nothing: an extracted
      id has no `/` left to match, and an unmatched URL is returned as is. */
  lemma QidFromUrlIdempotent(url: string)
    requires url != ""
    ensures QidFromUrl(QidFromUrl(url).value) == QidFromUrl(url)
  {
    var r := QidFromUrl(url).value;
    if exists i :: QidMatchAt(url, i) {
      assert '/' !in r;
      assert forall i :: !QidMatchAt(r, i);
    }
  }

  /** On an entity URI the data layer's `split('/').pop()` and
      `qidFromUrl` agree. */
  lemma LastSegmentOfEntityUri(url: string, i: nat)
    requires QidMatchAt(url, i)
    ensures QidFromUrl(url) == Some(LastSegment(url))
  {
    QidHasNoSlash(url[i + 1..]);
    LastSegmentAfter(url, i);
  }
}
