/** Expanding shortened links: each entity's `url` is replaced everywhere by its
    `expanded_url`, one entity after the other in list order. Used for the tweet text and
    for a profile's bio. */
module Links {
  import opened PyStr
  import opened Records

  /** The text after every entity of `links` has been expanded, in order. */
  function ExpandUrls(text: string, links: seq<UrlEntity>): string
    decreases |links|
  {
    if links == [] then text
    else ExpandUrls(Replace(text, links[0].url, links[0].expandedUrl), links[1..])
  }

  /** `for link in links: text = text.replace(link['url'], link['expanded_url'])` */
  method ExpandLinks(text: string, links: seq<UrlEntity>) returns (r: string)
    ensures r == ExpandUrls(text, links)
  {
    r := text;
    var i := 0;
    while i < |links|
      invariant 0 <= i <= |links|
      invariant ExpandUrls(r, links[i..]) == ExpandUrls(text, links)
    {
      assert links[i..][1..] == links[i + 1..];
      r := Replace(r, links[i].url, links[i].expandedUrl);
      i := i + 1;
    }
  }

  /** Short links that do not occur in the text leave it unchanged. */
  lemma {:induction false} ExpandUrlsAbsent(text: string, links: seq<UrlEntity>)
    requires forall i :: 0 <= i < |links| ==> !Contains(text, links[i].url)
    ensures ExpandUrls(text, links) == text
    decreases |links|
  {
    if links != [] {
      ReplaceAbsent(text, links[0].url, links[0].expandedUrl);
      ExpandUrlsAbsent(text, links[1..]);
    }
  }

  /** Every character of the result comes from the text or from an expanded link. */
  lemma {:induction false} ExpandUrlsChars(text: string, links: seq<UrlEntity>, c: char)
    requires c in ExpandUrls(text, links)
    ensures c in text || exists i :: 0 <= i < |links| && c in links[i].expandedUrl
    decreases |links|
  {
    if links != [] {
      var next := Replace(text, links[0].url, links[0].expandedUrl);
      ExpandUrlsChars(next, links[1..], c);
      ReplaceChars(text, links[0].url, links[0].expandedUrl);
      if !(c in next) {
        var i :| 0 <= i < |links[1..]| && c in links[1..][i].expandedUrl;
        assert links[1..][i] == links[i + 1];
      }
    }
  }
}
