/** `format_tweet`: one display line rebuilt from a decoded tweet, in the source's order:
    pick the text, mark line breaks, drop the link to the quoted status, expand or append
    media links, expand the other links, put the author in front. */
module TweetFormat {
  import opened Basics
  import opened PyStr
  import opened RegexStrip
  import opened Records
  import opened Links

  /** The exceptions `format_tweet` can raise on a tweet of the shape modelled here. */
  datatype FormatError =
    | NoText                                    // neither `full_text` nor `text` (KeyError)
    | ExpandedUrlWithoutSlash(expandedUrl: string)  // `rsplit('/', 1)[1]` (IndexError)
    | NoQuotedStatusId                          // `quoted_status_id_str` missing (KeyError)

  /** What every newline of the text becomes: a return symbol between two spaces. */
  const LineBreak: string := " \U{23CE} "

  /** `get_extended_media`: `extended_entities.media`, or the empty list when either key
      is missing. */
  function ExtendedMedia(t: Tweet): (media: seq<MediaItem>)
    ensures t.extendedEntities.Some? && t.extendedEntities.value.media.Some? ==>
              media == t.extendedEntities.value.media.value
    ensures media != [] ==> t.extendedEntities.Some? && t.extendedEntities.value.media.Some?
  {
    match t.extendedEntities
    case None => []
    case Some(ext) => match ext.media
      case None => []
      case Some(items) => items
  }

  /** `full_text`, falling back to `text`. */
  function BaseText(t: Tweet): (r: Result<string, FormatError>)
    ensures r.Err? <==> t.fullText.None? && t.text.None?
    ensures r.Ok? ==> r.value == if t.fullText.Some? then t.fullText.value else t.text.value
  {
    match t.fullText
    case Some(full) => Ok(full)
    case None => match t.text
      case Some(short) => Ok(short)
      case None => Err(NoText)
  }

  /** The text on one line. */
  function OneLine(raw: string): string
  {
    Replace(raw, "\n", LineBreak)
  }

  /** The quote-link scan: walk the URL entities in order; the first whose expanded URL
      ends in `/<quoted status id>` has its short URL stripped from the text, and the scan
      stops there. */
  function RemoveQuoteLink(text: string, urls: seq<UrlEntity>, quotedId: Option<string>)
    : Result<string, FormatError>
    decreases |urls|
  {
    if urls == [] then Ok(text)
    else match AfterLastSlash(urls[0].expandedUrl)
      case None => Err(ExpandedUrlWithoutSlash(urls[0].expandedUrl))
      case Some(segment) => match quotedId
        case None => Err(NoQuotedStatusId)
        case Some(id) =>
          if segment == id then Ok(Strip(text, urls[0].url))
          else RemoveQuoteLink(text, urls[1..], quotedId)
  }

  /** One media item: replace its short URL everywhere, or, when that changes nothing,
      append the media URL. */
  function MediaStep(text: string, item: MediaItem): string
  {
    var replaced := Replace(text, item.url, item.mediaUrlHttps);
    if replaced == text then text + item.mediaUrlHttps else replaced
  }

  /** All media items, in list order. */
  function ExpandMedia(text: string, media: seq<MediaItem>): string
    decreases |media|
  {
    if media == [] then text else ExpandMedia(MediaStep(text, media[0]), media[1..])
  }

  /** The author in front of the text. */
  function AuthorPrefix(a: Author): string
  {
    a.name + " (@" + a.screenName + "): "
  }

  /** The formatted tweet, or the exception `format_tweet` raises. */
  function FormattedTweet(t: Tweet): Result<string, FormatError>
  {
    match BaseText(t)
    case Err(e) => Err(e)
    case Ok(raw) =>
      var text := OneLine(raw);
      var stripped := if t.isQuoteStatus then RemoveQuoteLink(text, t.urls, t.quotedStatusIdStr)
                      else Ok(text);
      match stripped
      case Err(e) => Err(e)
      case Ok(s) => Ok(AuthorPrefix(t.user) + ExpandUrls(ExpandMedia(s, ExtendedMedia(t)), t.urls))
  }

  /** `format_tweet(tweet)`, rebinding `text` through its three loops. */
  method FormatTweet(t: Tweet) returns (r: Result<string, FormatError>)
    ensures r == FormattedTweet(t)
    ensures r.Ok? ==> AuthorPrefix(t.user) <= r.value
  {
    var text: string;
    if t.fullText.Some? {
      text := t.fullText.value;
    } else if t.text.Some? {
      text := t.text.value;
    } else {
      return Err(NoText);
    }
    text := Replace(text, "\n", LineBreak);
    if t.isQuoteStatus {
      var stripped := StripQuoteLink(text, t.urls, t.quotedStatusIdStr);
      if stripped.Err? {
        return Err(stripped.error);
      }
      text := stripped.value;
    }
    text := ExpandMediaLinks(text, ExtendedMedia(t));
    text := ExpandLinks(text, t.urls);
    r := Ok(AuthorPrefix(t.user) + text);
  }

  /** The quote-link loop of `format_tweet`: it stops at the first entity pointing at the
      quoted status, or at the first exception. */
  method StripQuoteLink(text: string, urls: seq<UrlEntity>, quotedId: Option<string>)
    returns (r: Result<string, FormatError>)
    ensures r == RemoveQuoteLink(text, urls, quotedId)
  {
    var i := 0;
    while i < |urls|
      invariant 0 <= i <= |urls|
      invariant RemoveQuoteLink(text, urls[i..], quotedId) == RemoveQuoteLink(text, urls, quotedId)
    {
      assert urls[i..][0] == urls[i] && urls[i..][1..] == urls[i + 1..];
      var segment := AfterLastSlash(urls[i].expandedUrl);
      if segment.None? {
        return Err(ExpandedUrlWithoutSlash(urls[i].expandedUrl));
      }
      if quotedId.None? {
        return Err(NoQuotedStatusId);
      }
      if segment.value == quotedId.value {
        return Ok(Strip(text, urls[i].url));
      }
      i := i + 1;
    }
    r := Ok(text);
  }

  /** The media loop of `format_tweet`. */
  method ExpandMediaLinks(text: string, media: seq<MediaItem>) returns (r: string)
    ensures r == ExpandMedia(text, media)
  {
    r := text;
    var j := 0;
    while j < |media|
      invariant 0 <= j <= |media|
      invariant ExpandMedia(r, media[j..]) == ExpandMedia(text, media)
    {
      assert media[j..][0] == media[j] && media[j..][1..] == media[j + 1..];
      var replaced := Replace(r, media[j].url, media[j].mediaUrlHttps);
      if replaced == r {
        r := r + media[j].mediaUrlHttps;
      } else {
        r := replaced;
      }
      j := j + 1;
    }
  }

  // ---------------------------------------------------------------------------
  // The text on one line

  /** No newline is left, and a text without one is kept as it is. */
  lemma OneLineNoNewline(raw: string)
    ensures '\n' !in OneLine(raw)
    ensures '\n' !in raw ==> OneLine(raw) == raw
  {
    assert "\n" == ['\n'];
    ReplaceRemovesChar(raw, '\n', LineBreak);
    ContainsChar(raw, '\n');
    if '\n' !in raw { ReplaceAbsent(raw, "\n", LineBreak); }
  }

  // ---------------------------------------------------------------------------
  // The link to the quoted status

  /** The first entity whose expanded URL ends in `/<id>` is the one stripped, whatever
      follows it in the list. */
  lemma {:induction false} QuoteLinkFirstMatch(text: string, urls: seq<UrlEntity>, id: string, k: nat)
    requires k < |urls|
    requires forall j :: 0 <= j < k ==>
               AfterLastSlash(urls[j].expandedUrl).Some? && AfterLastSlash(urls[j].expandedUrl).value != id
    requires AfterLastSlash(urls[k].expandedUrl) == Some(id)
    ensures RemoveQuoteLink(text, urls, Some(id)) == Ok(Strip(text, urls[k].url))
    decreases k
  {
    if k > 0 {
      assert AfterLastSlash(urls[0].expandedUrl).Some?;
      QuoteLinkFirstMatch(text, urls[1..], id, k - 1);
    }
  }

  /** When no entity points at the quoted status the text is kept. */
  lemma {:induction false} QuoteLinkNoMatch(text: string, urls: seq<UrlEntity>, id: string)
    requires forall j :: 0 <= j < |urls| ==>
               AfterLastSlash(urls[j].expandedUrl).Some? && AfterLastSlash(urls[j].expandedUrl).value != id
    ensures RemoveQuoteLink(text, urls, Some(id)) == Ok(text)
    decreases |urls|
  {
    if urls != [] {
      assert AfterLastSlash(urls[0].expandedUrl).Some?;
      QuoteLinkNoMatch(text, urls[1..], id);
    }
  }

  /** An expanded URL without a '/' met before any match stops the scan with an error. */
  lemma {:induction false} QuoteLinkNoSlash(text: string, urls: seq<UrlEntity>, id: string, k: nat)
    requires k < |urls|
    requires forall j :: 0 <= j < k ==>
               AfterLastSlash(urls[j].expandedUrl).Some? && AfterLastSlash(urls[j].expandedUrl).value != id
    requires '/' !in urls[k].expandedUrl
    ensures RemoveQuoteLink(text, urls, Some(id)) == Err(ExpandedUrlWithoutSlash(urls[k].expandedUrl))
    decreases k
  {
    if k > 0 {
      assert AfterLastSlash(urls[0].expandedUrl).Some?;
      QuoteLinkNoSlash(text, urls[1..], id, k - 1);
    }
  }

  /** Without `quoted_status_id_str` the scan fails as soon as there is an entity to look at. */
  lemma QuoteLinkWithoutId(text: string, urls: seq<UrlEntity>)
    ensures RemoveQuoteLink(text, urls, None).Ok? <==> urls == []
  {
  }

  /** Whatever the scan keeps of the text comes from the text. */
  lemma {:induction false} QuoteLinkChars(text: string, urls: seq<UrlEntity>, quotedId: Option<string>)
    requires RemoveQuoteLink(text, urls, quotedId).Ok?
    ensures forall c :: c in RemoveQuoteLink(text, urls, quotedId).value ==> c in text
    decreases |urls|
  {
    if urls != [] {
      var segment := AfterLastSlash(urls[0].expandedUrl).value;
      if segment == quotedId.value {
        StripChars(text, urls[0].url);
      } else {
        QuoteLinkChars(text, urls[1..], quotedId);
      }
    }
  }

  // ---------------------------------------------------------------------------
  // Media

  /** A media item's short URL is replaced where it occurs (unless it is its own media URL);
      otherwise the media URL is appended with no separator. */
  lemma MediaStepCases(text: string, item: MediaItem)
    ensures MediaStep(text, item) ==
              if Contains(text, item.url) && item.url != item.mediaUrlHttps
              then Replace(text, item.url, item.mediaUrlHttps)
              else text + item.mediaUrlHttps
  {
    ReplaceUnchangedIff(text, item.url, item.mediaUrlHttps);
  }

  /** The media URLs of `media`, one after the other. */
  function Appended(media: seq<MediaItem>): string
    decreases |media|
  {
    if media == [] then [] else media[0].mediaUrlHttps + Appended(media[1..])
  }

  /** Media whose short URL is not in the text when its turn comes are appended in list
      order after the text. */
  lemma {:induction false} ExpandMediaAppends(text: string, media: seq<MediaItem>)
    requires forall i :: 0 <= i < |media| ==> !Contains(text + Appended(media[..i]), media[i].url)
    ensures ExpandMedia(text, media) == text + Appended(media)
    decreases |media|
  {
    if media != [] {
      var m := media[0];
      assert !Contains(text + Appended(media[..0]), m.url);
      assert text + Appended(media[..0]) == text;
      ReplaceAbsent(text, m.url, m.mediaUrlHttps);
      var next := text + m.mediaUrlHttps;
      assert MediaStep(text, m) == next;
      PendingShift(text, media);
      ExpandMediaAppends(next, media[1..]);
      assert text + (m.mediaUrlHttps + Appended(media[1..])) == next + Appended(media[1..]);
    }
  }

  /** The hypothesis of `ExpandMediaAppends` for the rest of the list, once the first
      media URL has been appended. */
  lemma PendingShift(text: string, media: seq<MediaItem>)
    requires media != []
    requires forall i :: 0 <= i < |media| ==> !Contains(text + Appended(media[..i]), media[i].url)
    ensures forall i :: 0 <= i < |media[1..]| ==>
              !Contains(text + media[0].mediaUrlHttps + Appended(media[1..][..i]), media[1..][i].url)
  {
    forall i | 0 <= i < |media[1..]|
      ensures !Contains(text + media[0].mediaUrlHttps + Appended(media[1..][..i]), media[1..][i].url)
    {
      assert !Contains(text + Appended(media[..i + 1]), media[i + 1].url);
      AppendedPrefix(media, i);
      assert text + (media[0].mediaUrlHttps + Appended(media[1..][..i])) == text + media[0].mediaUrlHttps + Appended(media[1..][..i]);
      assert media[1..][i] == media[i + 1];
    }
  }

  lemma AppendedPrefix(media: seq<MediaItem>, i: nat)
    requires i < |media|
    ensures Appended(media[..i + 1]) == media[0].mediaUrlHttps + Appended(media[1..][..i])
  {
    assert media[..i + 1][0] == media[0] && media[..i + 1][1..] == media[1..][..i];
  }

  /** Every character after the media step comes from the text or from a media URL. */
  lemma {:induction false} ExpandMediaChars(text: string, media: seq<MediaItem>, c: char)
    requires c in ExpandMedia(text, media)
    ensures c in text || exists i :: 0 <= i < |media| && c in media[i].mediaUrlHttps
    decreases |media|
  {
    if media != [] {
      var next := MediaStep(text, media[0]);
      ExpandMediaChars(next, media[1..], c);
      ReplaceChars(text, media[0].url, media[0].mediaUrlHttps);
      if c !in next {
        var i :| 0 <= i < |media[1..]| && c in media[1..][i].mediaUrlHttps;
        assert media[1..][i] == media[i + 1];
      }
    }
  }

  // ---------------------------------------------------------------------------
  // The whole line

  /** The line is the author prefix followed by a text with no newline, as long as the
      expanded and media URLs have none. */
  lemma TweetBodyNoNewline(t: Tweet)
    requires FormattedTweet(t).Ok?
    requires forall i :: 0 <= i < |t.urls| ==> '\n' !in t.urls[i].expandedUrl
    requires forall i :: 0 <= i < |ExtendedMedia(t)| ==> '\n' !in ExtendedMedia(t)[i].mediaUrlHttps
    ensures AuthorPrefix(t.user) <= FormattedTweet(t).value
    ensures '\n' !in FormattedTweet(t).value[|AuthorPrefix(t.user)|..]
  {
    var text := OneLine(BaseText(t).value);
    OneLineNoNewline(BaseText(t).value);
    var stripped := if t.isQuoteStatus then RemoveQuoteLink(text, t.urls, t.quotedStatusIdStr)
                    else Ok(text);
    if t.isQuoteStatus { QuoteLinkChars(text, t.urls, t.quotedStatusIdStr); }
    var withMedia := ExpandMedia(stripped.value, ExtendedMedia(t));
    if '\n' in withMedia { ExpandMediaChars(stripped.value, ExtendedMedia(t), '\n'); }
    var body := ExpandUrls(withMedia, t.urls);
    if '\n' in body { ExpandUrlsChars(withMedia, t.urls, '\n'); }
    assert FormattedTweet(t).value == AuthorPrefix(t.user) + body;
    assert FormattedTweet(t).value[|AuthorPrefix(t.user)|..] == body;
  }

  /** A tweet without `full_text`, quote, media or links to expand shows its `text` as it
      is after the author. */
  lemma ShortTextVerbatim(t: Tweet)
    requires t.fullText.None? && t.text.Some? && '\n' !in t.text.value
    requires !t.isQuoteStatus && ExtendedMedia(t) == []
    requires forall i :: 0 <= i < |t.urls| ==> !Contains(t.text.value, t.urls[i].url)
    ensures FormattedTweet(t) == Ok(AuthorPrefix(t.user) + t.text.value)
  {
    OneLineNoNewline(t.text.value);
    ExpandUrlsAbsent(t.text.value, t.urls);
  }
}
