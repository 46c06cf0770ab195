/**
 * The validation prefix of the `/info` handler: three checks, in order,
 * the first failure deciding the answer. The request body is the parsed
 * JSON value; URL parsing is the parameter `parseUrl`: `None` when `urlparse(u)`
 * raises, else whether it has a non-empty scheme and a non-empty netloc.
 */
module InfoRequest {
  import opened Wrappers
  import opened PyText

  /** A parsed JSON value, as `request.get_json()` hands it over. */
  datatype Json =
    | JNull
    | JBool(b: bool)
    | JNum(n: real)
    | JStr(s: string)
    | JArr(items: seq<Json>)
    | JObj(fields: map<string, Json>)

  /** The outcome of the checks: the trimmed URL to look up, or why the request stops. */
  datatype Verdict =
    | Accepted(url: string)
    | MissingUrl     // 400: "please provide a valid link"
    | EmptyUrl       // 400: "the link is empty"
    | MalformedUrl   // 400: "invalid link"
    | InternalError  // a Python exception inside the checks, answered with 500

  /** Python truthiness of a JSON value (`not data`). */
  predicate Truthy(j: Json) {
    match j
    case JNull => false
    case JBool(b) => b
    case JNum(n) => n != 0.0
    case JStr(s) => s != ""
    case JArr(items) => items != []
    case JObj(fields) => fields != map[]
  }

  /** Whether the text "url" occurs in `s` (Python's `'url' in s` for a string). */
  predicate ContainsUrlText(s: string) {
    |s| >= 3 && (s[..3] == "url" || ContainsUrlText(s[1..]))
  }

  /** `'url' in data` for a truthy body: `None` when Python raises (a number or a boolean). */
  function UrlMember(data: Json): Option<bool> {
    match data
    case JObj(fields) => Some("url" in fields)
    case JArr(items) => Some(JStr("url") in items)
    case JStr(s) => Some(ContainsUrlText(s))
    case _ => None
  }

  /** `data['url']`: only an object can be indexed by a string key. */
  function UrlValue(data: Json): Option<Json> {
    if data.JObj? && "url" in data.fields then Some(data.fields["url"]) else None
  }

  /** The url text of a well-shaped body: an object whose "url" is a string. */
  function UrlText(body: Option<Json>): Option<string> {
    if body.Some? && body.value.JObj? && "url" in body.value.fields && body.value.fields["url"].JStr?
    then Some(body.value.fields["url"].s)
    else None
  }

  /**
   * Checks 2 and 3 on the trimmed url. `parseUrl(u)` is `None` when
   * `urlparse(u)` raises (`ValueError`, e.g. an unbalanced IPv6 bracket),
   * and otherwise says whether the parse has both a scheme and a netloc.
   */
  function CheckTrimmed(url: string, parseUrl: string -> Option<bool>): (v: Verdict)
    ensures v.EmptyUrl? || v.MalformedUrl? || v.Accepted? || v.InternalError?
    ensures v.EmptyUrl? <==> url == ""
    ensures v.Accepted? ==> v.url == url && parseUrl(url) == Some(true)
    ensures v.MalformedUrl? ==> parseUrl(url) == Some(false)
    ensures v.InternalError? ==> parseUrl(url).None?
  {
    if url == "" then EmptyUrl
    else
      match parseUrl(url)
      case None => InternalError
      case Some(ok) => if !ok then MalformedUrl else Accepted(url)
  }

  /**
   * Lines 62-73 of the handler. `body` is `None` when no JSON was sent.
   * Python semantics are followed for non-object bodies: `'url' in data`
   * tests membership in a list and substring in a string and raises on a
   * number or a boolean; `data['url']` raises on a list or a string;
   * `.strip()` raises when the value is not a string; and `urlparse`
   * raises on some malformed urls. Every such exception is `InternalError`.
   */
  function ValidateInfo(body: Option<Json>, parseUrl: string -> Option<bool>): (v: Verdict)
    // Check 1 wins over everything: nothing sent, a falsy body, or no "url" in it.
    ensures v == MissingUrl <==>
      (body.None? || !Truthy(body.value) || UrlMember(body.value) == Some(false))
    // Check 2 comes next: an all-whitespace url is empty whatever it would parse to.
    ensures v == EmptyUrl <==> UrlText(body).Some? && AllSpace(UrlText(body).value)
    // Check 3 last: a non-blank url that parses without a scheme or a netloc.
    ensures v == MalformedUrl <==>
      (UrlText(body).Some? && !AllSpace(UrlText(body).value) &&
       parseUrl(Strip(UrlText(body).value)) == Some(false))
    // What passes is the trimmed, non-empty url with a scheme and a netloc.
    ensures v.Accepted? <==>
      (UrlText(body).Some? && !AllSpace(UrlText(body).value) &&
       parseUrl(Strip(UrlText(body).value)) == Some(true))
    ensures v.Accepted? ==>
      (v.url == Strip(UrlText(body).value) && v.url != "" &&
       !IsSpace(v.url[0]) && !IsSpace(v.url[|v.url| - 1]) && parseUrl(v.url) == Some(true))
    // Everything else makes Python raise inside the checks.
    ensures v == InternalError <==>
      ((body.Some? && Truthy(body.value) && UrlMember(body.value) != Some(false) && UrlText(body).None?) ||
       (UrlText(body).Some? && !AllSpace(UrlText(body).value) &&
        parseUrl(Strip(UrlText(body).value)).None?))
  {
    if body.None? || !Truthy(body.value) then
      assert UrlText(body).None?;
      MissingUrl
    else
      match UrlMember(body.value)
      case None =>
        assert UrlText(body).None?;
        InternalError
      case Some(present) =>
        if !present then
          assert UrlText(body).None?;
          MissingUrl
        else
          match UrlValue(body.value)
          case Some(JStr(raw)) =>
            assert UrlText(body) == Some(raw);
            CheckTrimmed(Strip(raw), parseUrl)
          case _ =>
            assert UrlText(body).None?;
            InternalError
  }
}
