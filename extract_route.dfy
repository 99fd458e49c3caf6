/**
 * The response selection of the extract route's `POST` handler. The handler
 * reads `url` from the JSON body, rejects a missing or non-string value, fetches
 * the page, lets Readability pick out the article, cleans the article's markup
 * and answers with the article or with one of three error messages. The network,
 * the HTML parser and Readability are oracles: their outcomes are inputs here.
 */
module ExtractRoute {
  import opened Dom
  import Sanitizer

  /**
   * A JavaScript value as it can come out of `JSON.parse`, or `undefined` for a
   * missing property. A JSON number is a double, written here as a real;
   * `Number` does not represent the infinities `JSON.parse` gives for `1e400`
   * and `-1e400`, nor the rounding of tiny values such as `1e-400` to 0. The url
   * guard rejects every number, finite or not, so the answer does not depend on it.
   */
  datatype JsValue =
    | Undefined
    | Null
    | Bool(b: bool)
    | Number(n: real)
    | Str(s: string)
    | ArrayOrObject

  /** What `await req.json()` yields. */
  datatype RequestBody =
    | Unparseable              // the body is not JSON: `req.json()` rejects
    | JsonNull                 // `null`: destructuring `{ url }` throws
    | Json(url: JsValue)       // any other JSON value; `url` is its `url` property

  /** A value thrown inside the `try` block. */
  datatype Thrown = ErrorObject(message: string) | NonError

  /** The outcome of `await fetch(url, ...)`: a transport failure, or a response with its status. */
  datatype FetchOutcome = FetchThrew(thrown: Thrown) | Fetched(status: nat)

  /**
   * Everything between a good response and the cleaning step: `res.text()`,
   * parsing, `reader.parse()` and re-parsing `article.content`. `content` is the
   * child list of the body that JSDOM builds from the article's markup.
   */
  datatype ExtractOutcome =
    | ExtractThrew(thrown: Thrown)
    | NotFound
    | Found(title: string, content: seq<Node>)

  datatype Payload = ErrorBody(error: string) | ArticleBody(title: string, content: seq<Node>)

  /** `NextResponse.json(payload, { status })`, or a rejection that escapes the handler. */
  datatype Outcome = Unhandled | Response(status: nat, payload: Payload)

  const URL_REQUIRED := "URL is required."
  const NO_ARTICLE := "Could not extract article content from this URL."
  const FETCH_FAILED_PREFIX := "Failed to fetch URL (HTTP "
  const FETCH_FAILED_SUFFIX := ")."
  const PROCESS_FAILED_PREFIX := "Failed to process URL: "
  const UNKNOWN_ERROR := "Unknown error"

  /** JavaScript truthiness. */
  predicate Truthy(v: JsValue) {
    match v
    case Undefined => false
    case Null => false
    case Bool(b) => b
    case Number(n) => n != 0.0
    case Str(s) => s != ""
    case ArrayOrObject => true
  }

  /** `!url || typeof url !== "string"`. */
  predicate UrlRejected(url: JsValue) {
    !Truthy(url) || !url.Str?
  }

  /** The guard lets through exactly the non-empty strings. */
  lemma UrlAcceptedIffNonEmptyString(url: JsValue)
    ensures !UrlRejected(url) <==> (url.Str? && url.s != "")
  {
  }

  /** "ok" is a status in the range 200 to 299. */
  predicate Ok(status: nat) { 200 <= status <= 299 }

  function DigitChar(d: nat): char
    requires d < 10
  {
    "0123456789"[d]
  }

  predicate IsDigit(c: char) { '0' <= c <= '9' }

  /** The decimal form of a status, as a template literal renders a non-negative integer. */
  function Decimal(n: nat): (r: string)
    ensures |r| >= 1
    ensures forall i :: 0 <= i < |r| ==> IsDigit(r[i])
    ensures |r| > 1 ==> r[0] != '0'
    decreases n
  {
    if n < 10 then [DigitChar(n)] else Decimal(n / 10) + [DigitChar(n % 10)]
  }

  /** Reads a string of decimal digits back as a number. */
  function DecimalValue(s: string): nat
    requires forall i :: 0 <= i < |s| ==> IsDigit(s[i])
    decreases |s|
  {
    if s == [] then 0
    else
      assert IsDigit(s[|s| - 1]);
      10 * DecimalValue(s[..|s| - 1]) + (s[|s| - 1] as int - '0' as int)
  }

  lemma {:induction false} DecimalRoundTrip(n: nat)
    ensures DecimalValue(Decimal(n)) == n
    decreases n
  {
    if n >= 10 {
      var r := Decimal(n);
      assert r[..|r| - 1] == Decimal(n / 10);
      DecimalRoundTrip(n / 10);
    }
  }

  function FetchFailedMessage(status: nat): string {
    FETCH_FAILED_PREFIX + Decimal(status) + FETCH_FAILED_SUFFIX
  }

  /** The message names the status: two statuses never give the same message. */
  lemma FetchFailedMessageNamesStatus(s1: nat, s2: nat)
    requires FetchFailedMessage(s1) == FetchFailedMessage(s2)
    ensures s1 == s2
  {
    var m1, m2 := FetchFailedMessage(s1), FetchFailedMessage(s2);
    var p := |FETCH_FAILED_PREFIX|;
    assert Decimal(s1) == m1[p..|m1| - 2];
    assert Decimal(s2) == m2[p..|m2| - 2];
    DecimalRoundTrip(s1);
    DecimalRoundTrip(s2);
  }

  /** `e instanceof Error ? e.message : "Unknown error"`. */
  function ThrownMessage(e: Thrown): string {
    match e
    case ErrorObject(message) => message
    case NonError => UNKNOWN_ERROR
  }

  function ProcessFailed(e: Thrown): Outcome {
    Response(500, ErrorBody(PROCESS_FAILED_PREFIX + ThrownMessage(e)))
  }

  /**
   * `POST(req)`: `fetched` is consulted only once the url passes the guard and
   * `extracted` only once the fetch answered with an ok status.
   */
  function Post(body: RequestBody, fetched: FetchOutcome, extracted: ExtractOutcome): (r: Outcome)
    ensures r.Unhandled? <==> !body.Json?
    ensures r.Response? ==> r.status in {200, 400, 500}
    ensures r.Response? ==> (r.status == 200 <==> r.payload.ArticleBody?)
  {
    match body
    case Unparseable => Unhandled
    case JsonNull => Unhandled
    case Json(url) =>
      if UrlRejected(url) then Response(400, ErrorBody(URL_REQUIRED))
      else
        match fetched
        case FetchThrew(e) => ProcessFailed(e)
        case Fetched(status) =>
          if !Ok(status) then Response(400, ErrorBody(FetchFailedMessage(status)))
          else
            match extracted
            case ExtractThrew(e) => ProcessFailed(e)
            case NotFound => Response(400, ErrorBody(NO_ARTICLE))
            case Found(title, content) =>
              Response(200, ArticleBody(title, Sanitizer.Clean(content)))
  }

  /** A missing, empty or non-string url is answered with 400 before anything is fetched. */
  lemma RejectedUrlAnsweredBeforeFetch(url: JsValue, f1: FetchOutcome, e1: ExtractOutcome,
                                       f2: FetchOutcome, e2: ExtractOutcome)
    requires UrlRejected(url)
    ensures Post(Json(url), f1, e1) == Post(Json(url), f2, e2) == Response(400, ErrorBody(URL_REQUIRED))
  {
  }

  /** A status outside 200..299 is answered with 400 and a message naming it, whatever the extractor would say. */
  lemma NotOkStatusAnswered(url: string, status: nat, e1: ExtractOutcome, e2: ExtractOutcome)
    requires url != "" && !Ok(status)
    ensures Post(Json(Str(url)), Fetched(status), e1) == Post(Json(Str(url)), Fetched(status), e2)
    ensures Post(Json(Str(url)), Fetched(status), e1)
         == Response(400, ErrorBody("Failed to fetch URL (HTTP " + Decimal(status) + ")."))
  {
  }

  /** No article found after an ok fetch is answered with 400. */
  lemma NotFoundAnswered(url: string, status: nat)
    requires url != "" && Ok(status)
    ensures Post(Json(Str(url)), Fetched(status), NotFound)
         == Response(400, ErrorBody("Could not extract article content from this URL."))
  {
  }

  /** Anything thrown inside the `try` block is answered with 500 and its message. */
  lemma ThrownAnswered(url: string, status: nat, e: Thrown, x: ExtractOutcome)
    requires url != ""
    ensures Post(Json(Str(url)), FetchThrew(e), x) == ProcessFailed(e)
    ensures Ok(status) ==> Post(Json(Str(url)), Fetched(status), ExtractThrew(e)) == ProcessFailed(e)
    ensures ProcessFailed(e).payload.error
         == "Failed to process URL: " + (if e.ErrorObject? then e.message else "Unknown error")
  {
  }

  /**
   * The one success: a 200 answer happens exactly when the url is a non-empty
   * string, the fetch gave an ok status and an article was found, and it then
   * carries the article's title and its cleaned content.
   */
  lemma SuccessExactly(body: RequestBody, fetched: FetchOutcome, extracted: ExtractOutcome)
    ensures Post(body, fetched, extracted).Response? && Post(body, fetched, extracted).status == 200
        <==> body.Json? && body.url.Str? && body.url.s != ""
             && fetched.Fetched? && Ok(fetched.status) && extracted.Found?
    ensures Post(body, fetched, extracted).Response? && Post(body, fetched, extracted).status == 200 ==>
              Post(body, fetched, extracted).payload
              == ArticleBody(extracted.title, Sanitizer.Clean(extracted.content))
  {
  }

  /** A 404 from the page is answered with 400 and a message naming 404. */
  lemma NotFoundStatusExample()
    ensures Post(Json(Str("https://example.com/a")), Fetched(404), NotFound)
         == Response(400, ErrorBody("Failed to fetch URL (HTTP 404)."))
  {
    assert Decimal(404) == Decimal(40) + "4";
    assert Decimal(40) == "4" + "0";
  }

  /**
   * An article whose markup is `<div><img src=i><p>Hello <b style=x>world</b></p></div>`:
   * the div is unwrapped and its children come out untouched, attributes and image included.
   */
  lemma UnwrappedArticleExample()
    ensures var b := Element("B", [Attr("style", "x")], [Text("world")]);
      var p := Element("P", [], [Text("Hello "), b]);
      var img := Element("IMG", [Attr("src", "i")], []);
      Post(Json(Str("https://example.com/a")), Fetched(200),
           Found("T", [Element("DIV", [], [img, p])]))
      == Response(200, ArticleBody("T", [img, p]))
      && !Sanitizer.Safe([img, p]) && Sanitizer.Clean([img, p]) != [img, p]
  {
    var b := Element("B", [Attr("style", "x")], [Text("world")]);
    var p := Element("P", [], [Text("Hello "), b]);
    var img := Element("IMG", [Attr("src", "i")], []);
    assert ToLowerCase("DIV") == "div";
    assert Sanitizer.Clean([Element("DIV", [], [img, p])])
        == Sanitizer.CleanChild(Element("DIV", [], [img, p])) + Sanitizer.Clean([]);
    assert ToLowerCase("IMG") == "img";
    assert Sanitizer.Clean([img, p]) == Sanitizer.CleanChild(img) + Sanitizer.Clean([p]);
    assert |Sanitizer.Clean([p])| == |Sanitizer.CleanChild(p) + Sanitizer.Clean([])|;
  }
}
