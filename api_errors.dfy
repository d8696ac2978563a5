/** The chat line sent when an API response carries an `errors` list. `output_status`
    and `output_user` build it the same way and differ only in the sentence used when the
    first error has no `message`. */
module ApiErrors {
  import opened Basics
  import opened Records

  const Lead: string := "Twitter returned an error"

  /** The fallback of `output_status`. */
  const StatusFallback: string := ". :( Maybe the tweet was deleted?"

  /** The fallback of `output_user`. */
  const UserFallback: string := ". :( Maybe that user doesn't exist?"

  /** The line for one error entry. */
  function ErrorLine(error: ApiError, fallback: string): (line: string)
    ensures Lead <= line
    ensures error.message.None? ==> line == Lead + fallback
    ensures error.message.Some? ==>
              var m := error.message.value;
              && Lead + ": " + m <= line
              && line[|line| - 1] == '.'
              && (line == Lead + ": " + m + "." <==> m == [] || m[|m| - 1] != '.')
              && (line == Lead + ": " + m <==> m != [] && m[|m| - 1] == '.')
  {
    match error.message
    case None => Lead + fallback
    case Some(m) =>
      var msg := Lead + ": " + m;
      if msg[|msg| - 1] != '.' then msg + "." else msg
  }

  /** The error check of `output_status` / `output_user`: `None` when the response has no
      (or an empty) `errors` list and formatting goes on; otherwise the one line to send,
      built from the first entry. */
  method ErrorReply(errors: Option<seq<ApiError>>, fallback: string) returns (reply: Option<string>)
    ensures reply.Some? <==> errors.Some? && errors.value != []
    ensures reply.Some? ==> reply.value == ErrorLine(errors.value[0], fallback)
  {
    if errors.None? || errors.value == [] {
      return None;
    }
    var error := errors.value[0];
    var msg := Lead;
    if error.message.Some? {
      msg := msg + ": " + error.message.value;
      if msg[|msg| - 1] != '.' {
        msg := msg + ".";
      }
    } else {
      msg := msg + fallback;
    }
    reply := Some(msg);
  }

  /** `output_status`: an entry without a message, such as `{"code": 144}`, gives the
      deleted-tweet sentence. */
  lemma StatusFallbackLine(code: Option<int>)
    ensures ErrorLine(ApiError(code, None), StatusFallback) == Lead + StatusFallback
    ensures ErrorLine(ApiError(code, None), StatusFallback) != ErrorLine(ApiError(code, None), UserFallback)
  {
    assert StatusFallback[13] != UserFallback[13];
    assert (Lead + StatusFallback)[|Lead| + 13] != (Lead + UserFallback)[|Lead| + 13];
  }

  /** `output_user`: an entry without a message gives the missing-user sentence. */
  lemma UserFallbackLine(code: Option<int>)
    ensures ErrorLine(ApiError(code, None), UserFallback) == Lead + UserFallback
  {
  }
}
