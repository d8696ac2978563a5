# Twitter link formatter for Sopel, modelled in Dafny

This project models the string formatting of the Sopel Twitter plugin
(`sopel_modules/twitter/twitter.py`) and proves properties about it. The plugin turns
decoded API records into one chat line:

- a tweet line (`format_tweet`, with `get_extended_media`): pick the text, mark line breaks,
  drop the link to the quoted status, expand or append media links, expand the other
  short links, then put the author in front;
- the error line sent when a response carries an `errors` list (the same block in
  `output_status` and `output_user`, differing only in the fallback sentence);
- the profile line of `output_user`: name and handle, optional verified and lock glyphs,
  optional location and web site, the four counts with thousands separators, the join date
  and the bio with its links expanded, cut to a sendable length.

Modules:

- `Basics`: `Option` and `Result`.
- `Records`: the JSON records the code reads. A key whose absence the model follows (a
  `.get` default, a truthiness test, or a lookup whose exception is modelled as an error)
  is an `Option`. Every other key is assumed present and is a plain field. One exception:
  `entities.url.urls` is a plain sequence, and its empty value stands for the missing key,
  because the code raises on a missing key and on an empty list alike.
- `PyStr`: Python's `str.replace`, including the empty-pattern case, and
  `rsplit('/', 1)[1]`.
- `RegexStrip`: `re.sub(r'\s*' + re.escape(url) + r'\s*', '', text)`. It has leftmost matching,
  a greedy leading `\s*` that backtracks, a greedy trailing `\s*` and Python 3's `\s`.
- `Grouping`: the `'{:,}'` format of an integer.
- `Links`: the short-link expansion loop.
- `TweetFormat`: the tweet line.
- `ApiErrors`: the error line.
- `ProfileFormat`: the profile line.

The three loops of `format_tweet` and the link loop used for a bio are methods with
`while` loops. Each is proved equal to a recursive specification function. The
properties are proved about those functions. These exceptions of the code are modelled
as `Err` results, not as preconditions:

- `KeyError` when there is neither `full_text` nor `text`;
- `IndexError` when an `expanded_url` has no `/`;
- `KeyError` when `quoted_status_id_str` is missing;
- `KeyError` or `IndexError` when a user has a web site but no URL entity;
- `KeyError` when a user has a description but no `entities.description`.

Every other key the code reads is a plain field of the records, so the model assumes it
is present (see "## Left out").

The join date and the length limiter are host calls. They are parameters: `joined` is a
string, and `limiter` is a function that returns what fits and the excess.

## Model

| member | source | states |
|---|---|---|
| TweetFormat.ExtendedMedia | sopel_modules/twitter/twitter.py:46-53 | `extended_entities.media` when both keys are present; the result is non-empty only if both keys are present |
| TweetFormat.BaseText | sopel_modules/twitter/twitter.py:64-67 | `full_text` if present, else `text`; an error exactly when both are missing |
| TweetFormat.OneLine | sopel_modules/twitter/twitter.py:68 | `text.replace("\n", " \u23CE ")`; characterised by `OneLineNoNewline` and, through `PyStr.Replace`, by `ReplaceFirst` and `ReplaceAbsent` |
| TweetFormat.OneLineNoNewline | sopel_modules/twitter/twitter.py:68 | after newline replacement no `'\n'` is left; a text without a newline is unchanged |
| TweetFormat.FormatTweet | sopel_modules/twitter/twitter.py:56-95 | the method computes `FormattedTweet`: its steps in the source's order, or the exception raised; the result always starts with `name (@screen_name): ` |
| TweetFormat.StripQuoteLink | sopel_modules/twitter/twitter.py:73-77 | the quote-link loop, with its early `break` and its two exceptions, computes `RemoveQuoteLink` |
| TweetFormat.QuoteLinkFirstMatch | sopel_modules/twitter/twitter.py:74-77 | the first entity whose last `/`-segment equals the quoted id is the one stripped, whatever follows it |
| TweetFormat.QuoteLinkNoMatch | sopel_modules/twitter/twitter.py:74-77 | when no entity points at the quoted status, the text is kept |
| TweetFormat.QuoteLinkNoSlash | sopel_modules/twitter/twitter.py:75 | an `expanded_url` without `/` reached before a match raises the `IndexError` |
| TweetFormat.QuoteLinkWithoutId | sopel_modules/twitter/twitter.py:75 | without `quoted_status_id_str` the scan succeeds only on an empty entity list |
| TweetFormat.QuoteLinkChars | sopel_modules/twitter/twitter.py:73-77 | every character left by the quote-link step comes from the text |
| TweetFormat.ExpandMediaLinks | sopel_modules/twitter/twitter.py:80-87 | the media loop computes `ExpandMedia`, which handles the items in list order |
| TweetFormat.MediaStep | sopel_modules/twitter/twitter.py:81-87 | one pass of the media loop: replace, compare with the old text, append on no change; characterised by `MediaStepCases` |
| TweetFormat.MediaStepCases | sopel_modules/twitter/twitter.py:81-87 | a media item's short URL is replaced everywhere when it occurs (and differs from the media URL); otherwise the media URL is appended with no separator |
| TweetFormat.ExpandMediaAppends | sopel_modules/twitter/twitter.py:80-87 | media whose short URL is absent when its turn comes are appended in list order: the result is the text followed by their media URLs |
| TweetFormat.ExpandMediaChars | sopel_modules/twitter/twitter.py:80-87 | every character after the media step comes from the text or from a media URL |
| TweetFormat.TweetBodyNoNewline | sopel_modules/twitter/twitter.py:64-95 | the line is the author prefix followed by a body with no newline, provided the expanded and media URLs have none |
| TweetFormat.ShortTextVerbatim | sopel_modules/twitter/twitter.py:64-95 | a plain tweet (no `full_text`, no quote, no media, no short link in the text) is shown as `text` after the author prefix |
| Links.ExpandLinks | sopel_modules/twitter/twitter.py:90-91 | the link loop computes `ExpandUrls`: each entity's `url` is replaced everywhere by its `expanded_url`, in list order |
| Links.ExpandUrlsAbsent | sopel_modules/twitter/twitter.py:90-91 | short links that do not occur in the text leave it unchanged |
| Links.ExpandUrlsChars | sopel_modules/twitter/twitter.py:90-91 | every character of the result comes from the text or from an expanded URL |
| PyStr.AfterLastSlash | sopel_modules/twitter/twitter.py:75 | `None` exactly when there is no `/`; otherwise the suffix after the last `/`, which contains no `/` |
| PyStr.Replace | sopel_modules/twitter/twitter.py:81 | Python's `str.replace` without a count, used at lines 68, 81, 91 and 208; for a non-empty pattern it is fixed by `ReplaceFirst` (the first occurrence) with `ReplaceAbsent` (no occurrence); the empty pattern inserts the replacement around every character |
| PyStr.ReplaceUnchangedIff | sopel_modules/twitter/twitter.py:81-82 | `str.replace` leaves the text unchanged exactly when the pattern does not occur or equals its replacement |
| PyStr.ReplaceAbsent | sopel_modules/twitter/twitter.py:91 | replacing an absent pattern changes nothing |
| PyStr.ReplaceFirst | sopel_modules/twitter/twitter.py:81 | the first occurrence is replaced, the text before it is kept, and replacement continues after it |
| PyStr.ReplaceLength | sopel_modules/twitter/twitter.py:81 | for every pattern, the empty one included: a replacement no longer than the pattern never lengthens the text, and one no shorter never shortens it |
| PyStr.ReplaceChangesNonEmpty | sopel_modules/twitter/twitter.py:81-82 | an occurring non-empty pattern with a different replacement changes the text |
| PyStr.ReplaceChars | sopel_modules/twitter/twitter.py:68 | every character of the result comes from the text or from the replacement |
| PyStr.ReplaceRemovesChar | sopel_modules/twitter/twitter.py:68 | replacing a character by a string without it removes it everywhere |
| RegexStrip.Strip | sopel_modules/twitter/twitter.py:76 | the `re.sub` of the quote link; for a short URL that is non-empty and does not start with whitespace (as every `t.co` link is), it is fixed by `StripFirst` (the first occurrence and its whitespace) with `StripAbsent` (no occurrence); for other short URLs the function still follows `re.sub`, but no lemma characterises it |
| RegexStrip.StripFirst | sopel_modules/twitter/twitter.py:76 | the first occurrence is deleted with the whitespace on both sides, the text before that whitespace is kept, and the substitution goes on after it |
| RegexStrip.StripUnchangedIff | sopel_modules/twitter/twitter.py:76 | the substitution changes the text exactly when the non-empty short URL occurs in it |
| RegexStrip.StripAbsent | sopel_modules/twitter/twitter.py:76 | a text without the short URL is unchanged |
| RegexStrip.StripShrinks | sopel_modules/twitter/twitter.py:76 | where the non-empty short URL occurs the text gets shorter |
| RegexStrip.StripNoLonger | sopel_modules/twitter/twitter.py:76 | the substitution never lengthens the text |
| RegexStrip.StripChars | sopel_modules/twitter/twitter.py:76 | the result only holds characters of the text |
| RegexStrip.LeadBeforeLargest | sopel_modules/twitter/twitter.py:76 | the greedy leading `\s*` backtracks as little as it can: the literal is taken at the latest position within the leading whitespace run, and no later position up to the run's end holds it |
| RegexStrip.MatchAt | sopel_modules/twitter/twitter.py:76 | whitespace, the literal and whitespace up to a non-space form the match and fix where it ends |
| RegexStrip.SpaceRunExact | sopel_modules/twitter/twitter.py:76 | the length of a whitespace run is fixed by where it stops: `\s*` takes every whitespace character up to the first non-space |
| Grouping.Grouped | sopel_modules/twitter/twitter.py:213-214 | `'{:,}'` of an integer; fixed by `GroupedRoundTrip`, `GroupedNatLayout` and `GroupedNatLeadingDigit`, which together admit one string per non-negative number; a negative number is `-` followed by the string of its magnitude |
| Grouping.GroupedRoundTrip | sopel_modules/twitter/twitter.py:213-214 | reading the digits of `'{:,}'` output back gives the number, for every integer |
| Grouping.GroupedNatLayout | sopel_modules/twitter/twitter.py:213-214 | counting from the end, every fourth character is a comma and all the others are digits |
| Grouping.GroupedNatLeadingDigit | sopel_modules/twitter/twitter.py:213-214 | grouped output starts with a digit, and that digit is `0` only when the whole output is `0`: no leading zeros |
| ApiErrors.ErrorLine | sopel_modules/twitter/twitter.py:140-151 | starts with `Twitter returned an error`; with a message it continues with `: ` and the message, ends in `.`, and gains a `.` exactly when the message does not already end in one; without a message it is the lead followed by the fallback |
| ApiErrors.StatusFallbackLine | sopel_modules/twitter/twitter.py:150-151 | for `output_status`, an entry without a message (such as `{"code": 144}`) gives the lead followed by `. :( Maybe the tweet was deleted?`, a different line from the user one |
| ApiErrors.UserFallbackLine | sopel_modules/twitter/twitter.py:192-193 | for `output_user`, an entry without a message gives the lead followed by `. :( Maybe that user doesn't exist?` |
| ApiErrors.ErrorReply | sopel_modules/twitter/twitter.py:182-193 | a line is produced exactly when the `errors` list is present and non-empty, and it is built from the first entry |
| ProfileFormat.ProfileUrl | sopel_modules/twitter/twitter.py:200-203 | the expanded URL of the first URL entity when `url` is truthy, `''` otherwise; an error exactly when `url` is truthy and there is no entity |
| ProfileFormat.Bio | sopel_modules/twitter/twitter.py:205-210 | `''` when the description is absent or empty; otherwise the description with every entity's short link expanded (`Links.ExpandUrls`), or the `KeyError` exactly when `entities.description` is missing |
| ProfileFormat.BioCases | sopel_modules/twitter/twitter.py:205-210 | no description gives an empty bio; a description with its entities, whose short links are absent, is shown unchanged |
| ProfileFormat.ProfileMessage | sopel_modules/twitter/twitter.py:212-222 | the filled-in template; `ProfileTemplate` states where every value lands, and the glyph and separator lemmas below state what is seen from outside |
| ProfileFormat.ProfileTemplate | sopel_modules/twitter/twitter.py:212-222 | the line is the header, each glyph exactly when its flag is set, ` \| ` + location and ` \| ` + web site each only when non-empty (in that order), the four counts in thousands-separated form (`Grouping.Grouped`) with their nouns, ` \| Joined: ` + the join date, and ` \| ` + bio only when the bio is non-empty |
| ProfileFormat.VerifiedGlyphIff | sopel_modules/twitter/twitter.py:212-217 | the check mark follows the handle exactly when the user is verified |
| ProfileFormat.LockGlyphIff | sopel_modules/twitter/twitter.py:212-218 | the lock follows the handle and any check mark exactly when the account is protected |
| ProfileFormat.AfterHeader | sopel_modules/twitter/twitter.py:212-220 | the character after the space that follows the handle is the check mark, the lock, or the `\|` of the next segment |
| ProfileFormat.DetailsOpenWithSeparator | sopel_modules/twitter/twitter.py:212-222 | what follows the glyphs always opens with ` \| ` |
| ProfileFormat.SeparatorCount | sopel_modules/twitter/twitter.py:212-222 | with no `\|` in the field values, the line has three separators plus one for each non-empty location, web site and bio; an absent or empty field adds none |
| ProfileFormat.CountsBars | sopel_modules/twitter/twitter.py:213-214 | the counts part holds exactly two separators |
| ProfileFormat.Sendable | sopel_modules/twitter/twitter.py:226-228 | ` […]` is appended to what fits exactly when the limiter reports excess |
| ProfileFormat.ProfileLineCases | sopel_modules/twitter/twitter.py:200-228 | the line fails exactly when the web site has no URL entity or the description has no entities, with the web-site error first; an uncut message is sent as it is |
| ProfileFormat.FormatProfile | sopel_modules/twitter/twitter.py:200-228 | the body of `output_user` after the error check computes `ProfileLine` |

## Left out

- The OAuth client, the HTTP requests, `json.loads`, logging, `bot.say` and the status-code
  check are I/O or calls into libraries.
- `format_time` is the host's time handling. The join date is a string parameter.
- `tools.get_sendable_message` is a host utility whose length rules are not visible. It is
  a function parameter that returns what fits and the excess.
- `get_url` is not modelled. Its routing depends on the host's regex trigger and match objects.
- `configure`, `setup` and `TwitterSection` are configuration plumbing.
- The `output_status` success lines (retweet and like counts, the `Quoting:` line) are not
  modelled. They fill a template with `format_tweet`'s result, host-formatted times and
  counts.
- The `except IndexError` around `errors[0]` cannot fire once the list is non-empty. The
  model has no branch for it.
- A missing `entities.url` and an empty `entities.url.urls` are one case in the model.
  Both make the profile line fail, as `KeyError` and `IndexError` do in the code.
- Keys the code reads without a guard, other than `text` and `quoted_status_id_str`, are
  plain fields and are assumed present. The `KeyError` that the code raises when one is
  missing is not modelled. These keys are:
  - `entities` and `entities.urls` of a tweet (line 69);
  - `is_quote_status` (line 73);
  - `url` and `expanded_url` of every URL entity (lines 75-76, 91 and 208);
  - `url` and `media_url_https` of every media item (lines 81-85);
  - `user`, `name` and `screen_name` of a tweet (lines 94-95);
  - `name` and `screen_name` of a user (line 212);
  - `verified` and `protected` (lines 217-218);
  - the four counts (lines 213-214);
  - `created_at` of a user (line 221). The `joined` parameter stands for this lookup as
    well as for `format_time`.
- JSON `null` values and fields of the wrong type are outside the model. Records are well
  typed.
- `\s` follows Python 3's `str` patterns. Python 2's narrower ASCII set is not modelled.
- TweetFormat.TweetBodyNoNewline: the line is not claimed to be free of short URLs.
  An expanded URL may contain its own short URL, so `format_tweet` does not guarantee this.
- RegexStrip.StripFirst: the link to the quoted status is removed at every occurrence, not
  once. `re.sub` has no count, and the model follows the code.
