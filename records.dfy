/** The decoded JSON records of Twitter's REST API that the formatter reads. A key whose
    absence the model follows (a `.get` default, a truthiness test, or a lookup whose
    exception is modelled as an error) is an `Option`; every other key is assumed present
    and is a plain field. One exception: `entities.url.urls` of a user is a plain sequence
    whose empty value also stands for the missing key, since the code fails on both. */
module Records {
  import opened Basics

  /** An element of `entities.urls`, `entities.url.urls` or `entities.description.urls`:
      a shortened link and where it leads. */
  datatype UrlEntity = UrlEntity(url: string, expandedUrl: string)

  /** An element of `extended_entities.media`. */
  datatype MediaItem = MediaItem(url: string, mediaUrlHttps: string)

  /** `extended_entities`, which Twitter only sends for some tweets. */
  datatype ExtendedEntities = ExtendedEntities(media: Option<seq<MediaItem>>)

  /** The `user` object embedded in a tweet. */
  datatype Author = Author(name: string, screenName: string)

  /** A status object from `statuses/show` in extended mode. */
  datatype Tweet = Tweet(
    fullText: Option<string>,
    text: Option<string>,
    urls: seq<UrlEntity>,
    extendedEntities: Option<ExtendedEntities>,
    isQuoteStatus: bool,
    quotedStatusIdStr: Option<string>,
    user: Author)

  /** An element of the `errors` list of an API response. */
  datatype ApiError = ApiError(code: Option<int>, message: Option<string>)

  /** A user object from `users/show`. `urlEntities` is `entities.url.urls`, empty when
      that key is missing (the code fails on either); `descriptionUrls` is
      `entities.description.urls`, `None` when that key is missing. */
  datatype User = User(
    name: string,
    screenName: string,
    verified: bool,
    protected: bool,
    location: Option<string>,
    url: Option<string>,
    urlEntities: seq<UrlEntity>,
    description: Option<string>,
    descriptionUrls: Option<seq<UrlEntity>>,
    friendsCount: int,
    followersCount: int,
    statusesCount: int,
    favouritesCount: int)
}
