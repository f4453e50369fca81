/**
 * Turning a non-2xx response body into an exception message, and the
 * normalisation of the configured base URL.
 */
module Responses {
  import opened Wrappers
  import opened JavaString

  /** The JSON error body: the API spells the message field in two ways. */
  datatype ErrorResponse = ErrorResponse(error_message: Option<string>, errorMessage: Option<string>)

  /** How many characters of a body that is not a usable error are kept. */
  const MaxBodyChars: nat := 500

  /** U+2026 HORIZONTAL ELLIPSIS, appended to a cut body. */
  const Ellipsis: char := '\U{2026}'

  /** `s != null && !s.isBlank()` (Java 11 `isBlank`, by `Character.isWhitespace`). */
  predicate Usable(s: Option<string>) {
    s.Some? && !IsBlankString(s.value)
  }

  /**
   * The fallback: the body itself when it has at most 500 characters,
   * otherwise its first 500 characters and an ellipsis.
   */
  function Abbreviate(body: string): (r: string)
    ensures |body| <= MaxBodyChars ==> r == body
    ensures |body| > MaxBodyChars ==> |r| == MaxBodyChars + 1 && r[..MaxBodyChars] == body[..MaxBodyChars] && r[MaxBodyChars] == Ellipsis
  {
    if |body| > MaxBodyChars then body[..MaxBodyChars] + [Ellipsis] else body
  }

  /** The fallback never yields more than 501 characters, and always a prefix of the body up to the marker. */
  lemma AbbreviateBounded(body: string)
    ensures |Abbreviate(body)| <= MaxBodyChars + 1
    ensures var r := Abbreviate(body); var k := if |body| > MaxBodyChars then MaxBodyChars else |body|;
      r[..k] == body[..k]
  {
  }

  /** Cutting a body that was already cut gives the same text again. */
  lemma AbbreviateIdempotent(body: string)
    ensures Abbreviate(Abbreviate(body)) == Abbreviate(body)
  {
    var r := Abbreviate(body);
    if |body| > MaxBodyChars {
      assert r[..MaxBodyChars] == body[..MaxBodyChars];
    }
  }

  /**
   * `parseErrorMessage(body)`. `parsed` is what Jackson made of the body:
   * `None` when reading it as an `ErrorResponse` threw an `IOException`.
   * A blank or missing body gives "Empty response"; otherwise the camel-case
   * message wins over the snake-case one when both are usable; otherwise
   * the body is returned, cut to 500 characters.
   */
  function ParseErrorMessage(body: Option<string>, parsed: Option<ErrorResponse>): (r: string)
    ensures body.None? || IsBlankString(body.value) ==> r == "Empty response"
    ensures body.Some? && !IsBlankString(body.value) && parsed.None? ==> r == Abbreviate(body.value)
    ensures body.Some? && !IsBlankString(body.value) ==>
      r == Abbreviate(body.value) || (parsed.Some? && (parsed.value.errorMessage == Some(r) || parsed.value.error_message == Some(r)))
  {
    if body.None? || IsBlankString(body.value) then "Empty response"
    else if parsed.Some? && Usable(parsed.value.errorMessage) then parsed.value.errorMessage.value
    else if parsed.Some? && Usable(parsed.value.error_message) then parsed.value.error_message.value
    else Abbreviate(body.value)
  }

  /** A usable camel-case message is the answer, whatever the snake-case field holds. */
  lemma CamelCaseWins(body: string, err: ErrorResponse)
    requires !IsBlankString(body) && Usable(err.errorMessage)
    ensures ParseErrorMessage(Some(body), Some(err)) == err.errorMessage.value
  {
  }

  /** The snake-case message is used exactly when the camel-case one is not usable. */
  lemma SnakeCaseOnlyAsFallback(body: string, err: ErrorResponse)
    requires !IsBlankString(body) && Usable(err.error_message)
    ensures ParseErrorMessage(Some(body), Some(err)) == if Usable(err.errorMessage) then err.errorMessage.value else err.error_message.value
  {
  }

  /** An error object with neither field usable falls back to the cut body, as malformed JSON does. */
  lemma NoUsableFieldFallsBack(body: string, err: ErrorResponse)
    requires !IsBlankString(body) && !Usable(err.errorMessage) && !Usable(err.error_message)
    ensures ParseErrorMessage(Some(body), Some(err)) == ParseErrorMessage(Some(body), None)
    ensures ParseErrorMessage(Some(body), Some(err)) == Abbreviate(body)
  {
  }

  /**
   * The message is never blank: the fixed text starts with 'E', the chosen
   * field is usable, and a cut body keeps either a non-whitespace character
   * of the body or ends in the ellipsis, which is not whitespace.
   */
  lemma {:induction false} ParseErrorMessageNeverBlank(body: Option<string>, parsed: Option<ErrorResponse>)
    ensures !IsBlankString(ParseErrorMessage(body, parsed))
    ensures ParseErrorMessage(body, parsed) != []
  {
    var r := ParseErrorMessage(body, parsed);
    BlankStringIffAllWhitespace(r);
    if body.None? || IsBlankString(body.value) {
      assert r[0] == 'E';
    } else if parsed.Some? && (Usable(parsed.value.errorMessage) || Usable(parsed.value.error_message)) {
    } else {
      var b := body.value;
      BlankStringIffAllWhitespace(b);
      var i :| 0 <= i < |b| && !IsWhitespace(b[i]);
      if |b| > MaxBodyChars {
        if i < MaxBodyChars {
          assert r[i] == b[..MaxBodyChars][i] == b[i];
        } else {
          assert r[MaxBodyChars] == Ellipsis;
        }
      } else {
        assert r[i] == b[i];
      }
    }
  }

  /** `ensureNoTrailingSlash(url)`: drops one trailing '/', if there is one. */
  function EnsureNoTrailingSlash(url: string): (r: string)
    ensures url == r || url == r + "/"
    ensures r != url <==> (|url| > 0 && url[|url| - 1] == '/')
  {
    if |url| > 0 && url[|url| - 1] == '/' then url[..|url| - 1] else url
  }

  /** Exactly one slash goes: a URL ending in "//" keeps one of them. */
  lemma DropsOneSlash(u: string)
    ensures EnsureNoTrailingSlash(u + "/") == u
  {
    assert (u + "/")[..|u|] == u;
  }

  /** A URL that does not end in '/' is a fixed point. */
  lemma NoSlashFixed(u: string)
    requires u == [] || u[|u| - 1] != '/'
    ensures EnsureNoTrailingSlash(u) == u
  {
  }
}
