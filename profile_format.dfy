/** The profile line of `output_user`: name and handle, optional verified and lock glyphs,
    optional location and web site, the four counts with thousands separators, the join
    date and an optional bio with its links expanded, cut to a sendable length. */
module ProfileFormat {
  import opened Basics
  import opened PyStr
  import opened Records
  import opened Links
  import opened Grouping

  /** The exceptions the body of `output_user` can raise on the records modelled here. */
  datatype ProfileError =
    | UrlWithoutEntity          // `user['entities']['url']['urls'][0]`: KeyError or IndexError
    | DescriptionWithoutEntities  // `user['entities']['description']`: KeyError

  const VerifiedGlyph: string := " \U{2714}\U{FE0F}"
  const LockGlyph: string := " \U{1F512}"
  const Heart: string := "\U{2665}"
  const Ellipsis: string := " [\U{2026}]"
  /** The separator between the parts of the line. */
  const Sep: string := " | "

  /** Python truthiness of an optional string field: present and non-empty. */
  predicate Truthy(v: Option<string>)
  {
    v.Some? && v.value != []
  }

  /** The expanded web site, `''` when the user has none. */
  function ProfileUrl(u: User): (r: Result<string, ProfileError>)
    ensures r.Err? <==> Truthy(u.url) && u.urlEntities == []
    ensures r.Ok? && Truthy(u.url) ==> r.value == u.urlEntities[0].expandedUrl
    ensures !Truthy(u.url) ==> r == Ok([])
  {
    if Truthy(u.url) then
      if u.urlEntities == [] then Err(UrlWithoutEntity) else Ok(u.urlEntities[0].expandedUrl)
    else Ok([])
  }

  /** The bio with its links expanded, `''` when the user has none. */
  function Bio(u: User): (r: Result<string, ProfileError>)
    ensures r.Err? <==> Truthy(u.description) && u.descriptionUrls.None?
    ensures !Truthy(u.description) ==> r == Ok([])
    ensures Truthy(u.description) && u.descriptionUrls.Some? ==>
              r == Ok(ExpandUrls(u.description.value, u.descriptionUrls.value))
  {
    if Truthy(u.description) then
      match u.descriptionUrls
      case None => Err(DescriptionWithoutEntities)
      case Some(links) => Ok(ExpandUrls(u.description.value, links))
    else Ok([])
  }

  function Location(u: User): string
  {
    if Truthy(u.location) then u.location.value else []
  }

  /** An optional segment: `' | ' + value`, or nothing at all for an empty value. */
  function Segment(value: string): string
  {
    if value == [] then [] else Sep + value
  }

  function Header(u: User): string
  {
    "[Twitter] " + u.name + " (@" + u.screenName + ")"
  }

  function VerifiedMark(u: User): string
  {
    if u.verified then VerifiedGlyph else []
  }

  function LockMark(u: User): string
  {
    if u.protected then LockGlyph else []
  }

  /** The four counts, each with thousands separators. */
  function Counts(u: User): string
  {
    Sep + CountsText(u)
  }

  function CountsText(u: User): string
  {
    Count(u.friendsCount, " friends, ") + Count(u.followersCount, " followers") + Sep
    + Count(u.statusesCount, " tweets, ") + Count(u.favouritesCount, " " + Heart + "s")
  }

  /** A count with thousands separators, then its noun. */
  function Count(n: int, noun: string): string
  {
    Grouped(n) + noun
  }

  /** The join date and the bio. */
  function Tail(joined: string, bio: string): string
  {
    Sep + "Joined: " + joined + Segment(bio)
  }

  /** Everything after the glyphs. */
  function Details(u: User, url: string, bio: string, joined: string): string
  {
    Segment(Location(u)) + Segment(url) + Counts(u) + Tail(joined, bio)
  }

  /** The template, filled in; `joined` is the join date as the host's time formatter
      renders it. */
  function ProfileMessage(u: User, url: string, bio: string, joined: string): string
  {
    Header(u) + VerifiedMark(u) + LockMark(u) + Details(u, url, bio, joined)
  }

  /** The message cut by the host's length limiter, which returns what fits and the excess;
      the marker is added exactly when something was cut. */
  function Sendable(message: string, limiter: string -> (string, string)): (r: string)
    ensures limiter(message).1 != [] ==> r == limiter(message).0 + Ellipsis
    ensures limiter(message).1 == [] ==> r == limiter(message).0
  {
    var (fits, excess) := limiter(message);
    if excess != [] then fits + Ellipsis else fits
  }

  /** The line `output_user` sends for a user, or the exception it raises. */
  function ProfileLine(u: User, joined: string, limiter: string -> (string, string))
    : Result<string, ProfileError>
  {
    match ProfileUrl(u)
    case Err(e) => Err(e)
    case Ok(url) =>
      match Bio(u)
      case Err(e) => Err(e)
      case Ok(bio) => Ok(Sendable(ProfileMessage(u, url, bio, joined), limiter))
  }

  /** The body of `output_user` after its error check, rebinding `url`, `bio` and
      `message` in turn. */
  method FormatProfile(u: User, joined: string, limiter: string -> (string, string))
    returns (r: Result<string, ProfileError>)
    ensures r == ProfileLine(u, joined, limiter)
  {
    var url: string;
    if Truthy(u.url) {
      if u.urlEntities == [] {
        return Err(UrlWithoutEntity);
      }
      url := u.urlEntities[0].expandedUrl;
    } else {
      url := [];
    }
    assert ProfileUrl(u) == Ok(url);
    var bio: string;
    if Truthy(u.description) {
      if u.descriptionUrls.None? {
        return Err(DescriptionWithoutEntities);
      }
      bio := ExpandLinks(u.description.value, u.descriptionUrls.value);
    } else {
      bio := [];
    }
    assert Bio(u) == Ok(bio);
    var message := ProfileMessage(u, url, bio, joined);
    var (fits, excess) := limiter(message);
    message := fits;
    if excess != [] {
      message := message + Ellipsis;
    }
    r := Ok(message);
  }

  /** The line fails when the web site has no URL entity, and otherwise when the
      description has no entities, in the order `output_user` looks them up; without
      either failure it is the filled-in template, cut only if the limiter reports excess. */
  lemma ProfileLineCases(u: User, joined: string, limiter: string -> (string, string))
    ensures ProfileLine(u, joined, limiter).Err? <==>
              (Truthy(u.url) && u.urlEntities == [])
              || (Truthy(u.description) && u.descriptionUrls.None?)
    ensures Truthy(u.url) && u.urlEntities == [] ==>
              ProfileLine(u, joined, limiter) == Err(UrlWithoutEntity)
    ensures ProfileLine(u, joined, limiter).Ok? ==>
              var m := ProfileMessage(u, ProfileUrl(u).value, Bio(u).value, joined);
              limiter(m).1 == [] ==> ProfileLine(u, joined, limiter).value == limiter(m).0
  {
  }

  /** Without a description the bio is empty; a description whose short links do not occur
      in it is shown as it is. */
  lemma BioCases(u: User)
    ensures !Truthy(u.description) ==> Bio(u) == Ok([])
    ensures Truthy(u.description) && u.descriptionUrls.Some?
              && (forall i :: 0 <= i < |u.descriptionUrls.value| ==>
                    !Contains(u.description.value, u.descriptionUrls.value[i].url))
            ==> Bio(u) == Ok(u.description.value)
  {
    if Truthy(u.description) && u.descriptionUrls.Some? {
      var links := u.descriptionUrls.value;
      if forall i :: 0 <= i < |links| ==> !Contains(u.description.value, links[i].url) {
        ExpandUrlsAbsent(u.description.value, links);
      }
    }
  }

  // ---------------------------------------------------------------------------
  // Sequence facts used below

  lemma PrefixExtend(x: string, a: string, b: string)
    requires x <= a
    ensures x <= a + b
  {
    assert (a + b)[..|x|] == a[..|x|];
  }

  lemma IndexInLeft(a: string, b: string, i: nat)
    requires i < |a|
    ensures (a + b)[i] == a[i]
  {
  }

  lemma IndexInRight(a: string, b: string, i: nat)
    requires i < |b|
    ensures (a + b)[|a| + i] == b[i]
  {
  }

  // ---------------------------------------------------------------------------
  // Glyphs

  /** What follows the glyphs always opens with a separator. */
  lemma DetailsOpenWithSeparator(u: User, url: string, bio: string, joined: string)
    ensures Sep <= Details(u, url, bio, joined)
  {
    var s1, s2, c, tl := Segment(Location(u)), Segment(url), Counts(u), Tail(joined, bio);
    assert Details(u, url, bio, joined) == s1 + s2 + c + tl;
    assert Sep <= c;
    if s1 != [] {
      assert Sep <= s1;
      PrefixExtend(Sep, s1, s2);
      PrefixExtend(Sep, s1 + s2, c);
    } else if s2 != [] {
      assert Sep <= s2;
      assert s1 + s2 == s2;
      PrefixExtend(Sep, s2, c);
    } else {
      assert s1 + s2 + c == c;
    }
    PrefixExtend(Sep, s1 + s2 + c, tl);
  }

  /** The second character after `h`, when each of `v`, `l` is empty or at least two
      characters long: taken from the first non-empty one of `v`, `l` and `d`. */
  lemma SecondAfter(h: string, v: string, l: string, d: string)
    requires v == [] || |v| >= 2
    requires l == [] || |l| >= 2
    requires |d| >= 2
    ensures |h + v + l + d| > |h| + 1
    ensures (h + v + l + d)[|h| + 1] == if v != [] then v[1] else if l != [] then l[1] else d[1]
  {
    assert h + v + l + d == h + (v + l + d);
    IndexInRight(h, v + l + d, 1);
    if v != [] {
      IndexInLeft(v, l + d, 1);
      assert v + l + d == v + (l + d);
    } else if l != [] {
      assert v + l + d == l + d;
    } else {
      assert v + l + d == d;
    }
  }

  /** The second character after the handle: the check mark, the lock, or the '|' of a
      separator. */
  lemma AfterHeader(u: User, url: string, bio: string, joined: string)
    ensures |ProfileMessage(u, url, bio, joined)| > |Header(u)| + 1
    ensures ProfileMessage(u, url, bio, joined)[|Header(u)| + 1] ==
              if u.verified then '\U{2714}' else if u.protected then '\U{1F512}' else '|'
  {
    DetailsOpenWithSeparator(u, url, bio, joined);
    SecondAfter(Header(u), VerifiedMark(u), LockMark(u), Details(u, url, bio, joined));
  }

  /** The character after a leading space of the first non-empty part among `l` and `d`. */
  lemma SecondOf(a: string, l: string, d: string)
    requires l == [] || |l| >= 2
    requires |d| >= 2
    ensures |a + l + d| > |a| + 1
    ensures (a + l + d)[|a| + 1] == if l != [] then l[1] else d[1]
  {
    SecondAfter(a, [], l, d);
    assert a + [] == a;
  }

  /** The check mark follows the handle exactly when the user is verified. */
  lemma VerifiedGlyphIff(u: User, url: string, bio: string, joined: string)
    ensures (Header(u) + VerifiedGlyph <= ProfileMessage(u, url, bio, joined)) <==> u.verified
  {
    var h, v, l, d := Header(u), VerifiedMark(u), LockMark(u), Details(u, url, bio, joined);
    AfterHeader(u, url, bio, joined);
    IndexInRight(h, VerifiedGlyph, 1);
    if u.verified {
      assert ProfileMessage(u, url, bio, joined) == h + v + l + d;
      PrefixExtend(h + v, h + v, l);
      PrefixExtend(h + v, h + v + l, d);
    }
  }

  /** The lock follows the handle, and the check mark if there is one, exactly when the
      account is protected. */
  lemma LockGlyphIff(u: User, url: string, bio: string, joined: string)
    ensures (Header(u) + VerifiedMark(u) + LockGlyph <= ProfileMessage(u, url, bio, joined))
              <==> u.protected
  {
    var a, l, d := Header(u) + VerifiedMark(u), LockMark(u), Details(u, url, bio, joined);
    assert ProfileMessage(u, url, bio, joined) == a + l + d;
    DetailsOpenWithSeparator(u, url, bio, joined);
    SecondOf(a, l, d);
    IndexInRight(a, LockGlyph, 1);
    if u.protected {
      PrefixExtend(a + l, a + l, d);
    }
  }

  // ---------------------------------------------------------------------------
  // Separators

  /** The number of '|' characters in a string. */
  function Bars(s: string): nat
  {
    multiset(s)['|']
  }

  function Present(value: string): nat
  {
    if value == [] then 0 else 1
  }

  lemma GroupedHasNoBar(n: int)
    ensures '|' !in Grouped(n)
  {
    var k: nat := if n < 0 then -n else n;
    GroupedNatLayout(k);
    var g := GroupedNat(k);
    forall i | 0 <= i < |g| ensures g[i] != '|' {
      assert g[i] == ',' || IsDigit(g[i]);
    }
    assert '|' !in g;
  }

  lemma NoBars(s: string)
    requires '|' !in s
    ensures Bars(s) == 0
  {
  }

  lemma BarsAppend(a: string, b: string)
    ensures Bars(a + b) == Bars(a) + Bars(b)
  {
    assert multiset(a + b) == multiset(a) + multiset(b);
  }

  /** A separator holds exactly one '|'. */
  lemma SeparatorBars()
    ensures Bars(Sep) == 1
  {
    assert Sep == [' '] + ['|'] + [' '];
    NoBars([' ']);
  }

  lemma SegmentBars(value: string)
    requires '|' !in value
    ensures Bars(Segment(value)) == Present(value)
  {
    if value != [] {
      SeparatorBars();
      NoBars(value);
      BarsAppend(Sep, value);
    }
  }

  lemma CountBars(n: int, noun: string)
    requires '|' !in noun
    ensures '|' !in Count(n, noun)
  {
    GroupedHasNoBar(n);
  }

  /** Four counts with two separators, one before the first and one in the middle. */
  lemma CountsShapeBars(c1: string, c2: string, c3: string, c4: string)
    requires '|' !in c1 && '|' !in c2 && '|' !in c3 && '|' !in c4
    ensures Bars(Sep + (c1 + c2 + Sep + c3 + c4)) == 2
  {
    SeparatorBars();
    NoBars(c1 + c2);
    NoBars(c3);
    NoBars(c4);
    BarsAppend(c1 + c2, Sep);
    BarsAppend(c1 + c2 + Sep, c3);
    BarsAppend(c1 + c2 + Sep + c3, c4);
    BarsAppend(Sep, c1 + c2 + Sep + c3 + c4);
  }

  lemma CountsBars(u: User)
    ensures Bars(Counts(u)) == 2
  {
    CountBars(u.friendsCount, " friends, ");
    CountBars(u.followersCount, " followers");
    CountBars(u.statusesCount, " tweets, ");
    CountBars(u.favouritesCount, " " + Heart + "s");
    CountsShapeBars(Count(u.friendsCount, " friends, "), Count(u.followersCount, " followers"),
                    Count(u.statusesCount, " tweets, "), Count(u.favouritesCount, " " + Heart + "s"));
  }

  /** A separator, a bar-free text, then any rest. */
  lemma LeadingSeparatorBars(w: string, rest: string)
    requires '|' !in w
    ensures Bars(Sep + w + rest) == 1 + Bars(rest)
  {
    SeparatorBars();
    NoBars(w);
    BarsAppend(Sep, w);
    BarsAppend(Sep + w, rest);
  }

  lemma TailBars(joined: string, bio: string)
    requires '|' !in joined && '|' !in bio
    ensures Bars(Tail(joined, bio)) == 1 + Present(bio)
  {
    SegmentBars(bio);
    LeadingSeparatorBars("Joined: " + joined, Segment(bio));
  }

  lemma HeaderBars(u: User)
    requires '|' !in u.name && '|' !in u.screenName
    ensures Bars(Header(u)) == 0
  {
    assert '|' !in Header(u);
    NoBars(Header(u));
  }

  lemma MarkBars(u: User)
    ensures Bars(VerifiedMark(u)) == 0 && Bars(LockMark(u)) == 0
  {
    assert '|' !in VerifiedMark(u) && '|' !in LockMark(u);
    NoBars(VerifiedMark(u));
    NoBars(LockMark(u));
  }

  /** With no '|' in the names, the join date or the optional values, the line holds two
      separators in the counts, one before the join date, and one more for each of
      location, web site and bio that is non-empty: an absent or empty field adds none. */
  lemma SeparatorCount(u: User, url: string, bio: string, joined: string)
    requires '|' !in u.name && '|' !in u.screenName && '|' !in joined
    requires '|' !in Location(u) && '|' !in url && '|' !in bio
    ensures Bars(ProfileMessage(u, url, bio, joined))
              == 3 + Present(Location(u)) + Present(url) + Present(bio)
  {
    var h, v, l := Header(u), VerifiedMark(u), LockMark(u);
    var s1, s2, c, tl := Segment(Location(u)), Segment(url), Counts(u), Tail(joined, bio);
    HeaderBars(u);
    MarkBars(u);
    SegmentBars(Location(u));
    SegmentBars(url);
    CountsBars(u);
    TailBars(joined, bio);
    assert ProfileMessage(u, url, bio, joined) == h + v + l + (s1 + s2 + c + tl);
    BarsAppend(h, v);
    BarsAppend(h + v, l);
    BarsAppend(h + v + l, s1 + s2 + c + tl);
    BarsAppend(s1, s2);
    BarsAppend(s1 + s2, c);
    BarsAppend(s1 + s2 + c, tl);
  }

  // ---------------------------------------------------------------------------
  // Where each value lands

  /** The filled-in template in the record's own terms: the header, each glyph only when
      its flag is set, the location and the web site each as `' | ' + value` only when
      non-empty, the four counts with thousands separators, the join date, and the bio as
      `' | ' + bio` only when non-empty. */
  lemma ProfileTemplate(u: User, url: string, bio: string, joined: string)
    ensures ProfileMessage(u, url, bio, joined) ==
              "[Twitter] " + u.name + " (@" + u.screenName + ")"
              + (if u.verified then VerifiedGlyph else [])
              + (if u.protected then LockGlyph else [])
              + (if Truthy(u.location) then Sep + u.location.value else [])
              + (if url != [] then Sep + url else [])
              + Sep + Grouped(u.friendsCount) + " friends, " + Grouped(u.followersCount) + " followers"
              + Sep + Grouped(u.statusesCount) + " tweets, " + Grouped(u.favouritesCount) + " " + Heart + "s"
              + Sep + "Joined: " + joined
              + (if bio != [] then Sep + bio else [])
  {
    var g1, g2, g3, g4 := Grouped(u.friendsCount), Grouped(u.followersCount),
                          Grouped(u.statusesCount), Grouped(u.favouritesCount);
    assert Count(u.favouritesCount, " " + Heart + "s") == g4 + (" " + Heart + "s");
    Flatten(Header(u) + VerifiedMark(u) + LockMark(u), Segment(Location(u)), Segment(url),
            g1, " friends, ", g2, " followers", g3, " tweets, ", g4, " ", Heart, "s",
            "Joined: ", joined, Segment(bio));
  }

  /** The nesting of `ProfileMessage`, flattened; over abstract strings so that no literal
      is unfolded. */
  lemma Flatten(p: string, s1: string, s2: string,
                g1: string, n1: string, g2: string, n2: string, g3: string, n3: string,
                g4: string, n4: string, n5: string, n6: string,
                j: string, joined: string, b: string)
    ensures p + (s1 + s2 + (Sep + ((g1 + n1) + (g2 + n2) + Sep + (g3 + n3) + (g4 + (n4 + n5 + n6))))
                 + (Sep + j + joined + b))
            == p + s1 + s2 + Sep + g1 + n1 + g2 + n2 + Sep + g3 + n3 + g4 + n4 + n5 + n6
               + Sep + j + joined + b
  {
    var counts := (g1 + n1) + (g2 + n2) + Sep + (g3 + n3) + (g4 + (n4 + n5 + n6));
    assert counts == g1 + n1 + g2 + n2 + Sep + g3 + n3 + g4 + n4 + n5 + n6;
    var flat := p + s1 + s2 + Sep + g1 + n1 + g2 + n2 + Sep + g3 + n3 + g4 + n4 + n5 + n6;
    assert p + (s1 + s2 + (Sep + counts)) == flat;
  }
}
