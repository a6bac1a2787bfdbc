/**
 `ScrapingService.ScrapeAsync`: from a URL typed by the user to a fully
 populated `ScrapeDocument`, whatever happens on the way.

 The URI parser, the HTML parser, entity decoding and the HTTP exchange are
 parameters (`ScrapeEnv`); so are the caller's cancellation state and the
 clock reading. A run records the result and the request that was sent, if
 any.
 */
module Scraping {
  import opened Wrappers
  import opened Text
  import opened Numbers
  import opened Clock
  import opened Transport
  import opened Settings
  import opened Links

  /** The stored outcome of one scrape (`ScrapeDocument`, without its
      database id). */
  datatype ScrapeDocument = ScrapeDocument(
    url: string,
    statusCode: int,
    isSuccess: bool,
    errorMessage: string,
    title: string,
    h1: string,
    links: seq<ScrapeLink>,
    scrapedAtUtc: Instant)

  /** `ScrapeResult`. */
  datatype ScrapeResult = ScrapeResult(isSuccess: bool, errorMessage: string, document: ScrapeDocument)

  /** What the HTML parser yields for a page: the inner text of the first
      `<title>` and the first `<h1>` (null when absent) and the `<a href>`
      anchors in document order. */
  datatype HtmlPage = HtmlPage(title: Option<string>, h1: Option<string>, anchors: seq<Anchor>)

  /** Everything outside the service's own code. */
  datatype ScrapeEnv = ScrapeEnv(
    parseAbsolute: string -> Option<Uri>,  // `Uri.TryCreate(s, UriKind.Absolute, out uri)`
    resolve: Resolver,                     // `Uri.TryCreate(baseUri, href, out absolute)`
    deEntitize: string -> string,          // `HtmlEntity.DeEntitize`
    parseHtml: string -> HtmlPage,         // `HtmlDocument.LoadHtml` and the XPath queries
    send: Send,                            // `GetAsync` and `ReadAsStringAsync`
    callerCancelled: bool,                 // the caller's token, when a catch filter reads it
    now: Instant)                          // `DateTime.UtcNow`

  /** The result of a scrape and the request it sent, if it sent one. */
  datatype ScrapeRun = ScrapeRun(result: ScrapeResult, request: Option<Request>)

  const BadUrlMessage: string := "Некорректный URL. " + "Используйте абсолютный адрес с http/https"
  const EmptyPageMessage: string := "Получена пустая HTML-страница"
  const TimeoutMessage: string := "Превышено время ожидания ответа страницы"
  const NetworkMessage: string := "Сетевая ошибка при загрузке страницы"
  const ProcessingMessage: string := "Ошибка обработки HTML-страницы"

  /** `$"HTTP {(int)response.StatusCode} {response.ReasonPhrase}"`; a null
      reason phrase prints as nothing. */
  function HttpErrorMessage(status: int, reason: Option<string>): (m: string)
    ensures |m| > 5 && m[..5] == "HTTP "
  {
    "HTTP " + IntToDecimal(status) + " " + reason.GetOr("")
  }

  /** The message of the `catch` clause that handles a failure. */
  function FaultMessage(f: Failure, callerCancelled: bool): (m: string)
    ensures m == TimeoutMessage <==> f == Canceled && !callerCancelled
    ensures m == NetworkMessage <==> f == RequestFailed
    ensures m == ProcessingMessage <==> HandlerFor(f, callerCancelled) == CatchAll
  {
    MessagesDistinct();
    match HandlerFor(f, callerCancelled)
    case TimeoutHandler => TimeoutMessage
    case NetworkHandler => NetworkMessage
    case CatchAll => ProcessingMessage
  }

  /** No two of the fixed messages are equal, and none reads like an HTTP
      status message. */
  lemma MessagesDistinct()
    ensures BadUrlMessage != EmptyPageMessage && BadUrlMessage != TimeoutMessage
    ensures BadUrlMessage != NetworkMessage && BadUrlMessage != ProcessingMessage
    ensures EmptyPageMessage != TimeoutMessage && EmptyPageMessage != NetworkMessage
    ensures EmptyPageMessage != ProcessingMessage
    ensures TimeoutMessage != NetworkMessage && TimeoutMessage != ProcessingMessage
    ensures NetworkMessage != ProcessingMessage
    ensures forall m :: m in [BadUrlMessage, EmptyPageMessage, TimeoutMessage, NetworkMessage, ProcessingMessage]
              ==> m != "" && m[0] != 'H'
  {
    assert BadUrlMessage[0] == 'Н';
    assert EmptyPageMessage[0] == 'П' && TimeoutMessage[0] == 'П';
    assert NetworkMessage[0] == 'С' && ProcessingMessage[0] == 'О';
    assert |EmptyPageMessage| == 29 && |TimeoutMessage| == 40;
  }

  predicate IsHttpScheme(scheme: string) {
    scheme == "http" || scheme == "https"
  }

  /** `TryBuildUri`: the trimmed text must parse as an absolute URI whose
      scheme is `http` or `https`. */
  function TryBuildUri(url: Option<string>, parseAbsolute: string -> Option<Uri>): (r: Option<Uri>)
    ensures r.Some? <==> url.Some? && parseAbsolute(Trim(url.value)).Some?
                         && IsHttpScheme(parseAbsolute(Trim(url.value)).value.scheme)
    ensures r.Some? ==> r == parseAbsolute(Trim(url.value))
  {
    if url.None? then None
    else
      match parseAbsolute(Trim(url.value))
      case None => None
      case Some(parsed) => if IsHttpScheme(parsed.scheme) then Some(parsed) else None
  }

  /** The document as `ScrapeAsync` first creates it. */
  function NewDocument(url: Option<string>, now: Instant): (d: ScrapeDocument)
    ensures d.url == TrimOrEmpty(url) && d.scrapedAtUtc == now
    ensures d.statusCode == 0 && !d.isSuccess && d.errorMessage == ""
    ensures d.title == "" && d.h1 == "" && d.links == []
  {
    ScrapeDocument(TrimOrEmpty(url), 0, false, "", "", "", [], now)
  }

  /** A failed result: the document and the result carry the same message. */
  function Fail(doc: ScrapeDocument, message: string): (r: ScrapeResult)
    ensures Consistent(r) && !r.isSuccess && r.errorMessage == message
    ensures r.document == doc.(isSuccess := false, errorMessage := message)
  {
    var failed := doc.(isSuccess := false, errorMessage := message);
    ScrapeResult(false, message, failed)
  }

  /** The result repeats its document's verdict and message. */
  predicate Consistent(r: ScrapeResult) {
    r.isSuccess == r.document.isSuccess && r.errorMessage == r.document.errorMessage
  }

  /** `FillDocumentFromHtml`: the cleaned title and first heading, and the
      links `ExtractLinks` keeps; nothing else of the document changes. */
  function FillDocumentFromHtml(doc: ScrapeDocument, pageUri: Uri, html: string, env: ScrapeEnv, maxLinks: int)
    : (d: ScrapeDocument)
    ensures d.url == doc.url && d.statusCode == doc.statusCode && d.scrapedAtUtc == doc.scrapedAtUtc
    ensures d.isSuccess == doc.isSuccess && d.errorMessage == doc.errorMessage
    ensures d.title == CleanText(env.parseHtml(html).title, env.deEntitize)
    ensures d.h1 == CleanText(env.parseHtml(html).h1, env.deEntitize)
    ensures IsNormalized(d.title) && IsNormalized(d.h1)
    ensures d.links == KeptLinks(env.parseHtml(html).anchors, pageUri, env.resolve, env.deEntitize, maxLinks)
  {
    var page := env.parseHtml(html);
    doc.(title := CleanText(page.title, env.deEntitize),
         h1 := CleanText(page.h1, env.deEntitize),
         links := KeptLinks(page.anchors, pageUri, env.resolve, env.deEntitize, maxLinks))
  }

  /** `ScrapeAsync`. */
  function Scrape(settings: ScrapingSettings, env: ScrapeEnv, url: Option<string>): (run: ScrapeRun)
    ensures Consistent(run.result)
    ensures run.result.document.url == TrimOrEmpty(url)
    ensures run.result.document.scrapedAtUtc == env.now
    ensures run.result.isSuccess <==> run.result.errorMessage == ""
    ensures !run.result.isSuccess ==>
              run.result.document.title == "" && run.result.document.h1 == "" && run.result.document.links == []
    ensures |run.result.document.links| <= if settings.maxLinks <= 0 then 0 else settings.maxLinks
    ensures run.request.Some? <==> TryBuildUri(url, env.parseAbsolute).Some?
                                   && TimerAccepts(DeadlineSeconds(settings.requestTimeoutSeconds))
    ensures run.request.Some? ==>
              run.request.value == Request(TryBuildUri(url, env.parseAbsolute).value.text,
                                           DeadlineSeconds(settings.requestTimeoutSeconds))
    ensures TryBuildUri(url, env.parseAbsolute).None? ==>
              run.result == Fail(NewDocument(url, env.now), BadUrlMessage)
  {
    var doc := NewDocument(url, env.now);
    MessagesDistinct();
    match TryBuildUri(url, env.parseAbsolute)
    case None => ScrapeRun(Fail(doc, BadUrlMessage), None)
    case Some(uri) =>
      var deadline := DeadlineSeconds(settings.requestTimeoutSeconds);
      if !TimerAccepts(deadline) then
        ScrapeRun(Fail(doc, FaultMessage(OtherFailure, env.callerCancelled)), None)
      else
        var request := Request(uri.text, deadline);
        ScrapeRun(Exchange(doc, uri, env, env.send(request), settings.maxLinks), Some(request))
  }

  /** Everything after the request went out: the response, or the failure
      `GetAsync` or the body read threw. */
  function Exchange(doc: ScrapeDocument, uri: Uri, env: ScrapeEnv, sent: Outcome<Response>, maxLinks: int)
    : (r: ScrapeResult)
    requires doc.statusCode == 0 && !doc.isSuccess && doc.errorMessage == ""
    requires doc.title == "" && doc.h1 == "" && doc.links == []
    ensures Consistent(r)
    ensures r.document.url == doc.url && r.document.scrapedAtUtc == doc.scrapedAtUtc
    ensures r.isSuccess <==> r.errorMessage == ""
    ensures !r.isSuccess ==> r.document.title == "" && r.document.h1 == "" && r.document.links == []
    ensures |r.document.links| <= if maxLinks <= 0 then 0 else maxLinks
    ensures r.isSuccess <==> sent.Done? && IsSuccessStatus(sent.value.status)
                              && sent.value.body.Done? && !IsBlank(sent.value.body.value)
    ensures sent.Threw? ==> r == Fail(doc, FaultMessage(sent.failure, env.callerCancelled))
    ensures sent.Done? ==> r.document.statusCode == sent.value.status
    ensures sent.Done? && !IsSuccessStatus(sent.value.status) ==>
              r == Fail(doc.(statusCode := sent.value.status), HttpErrorMessage(sent.value.status, sent.value.reason))
    ensures sent.Done? && IsSuccessStatus(sent.value.status) && sent.value.body.Threw? ==>
              r == Fail(doc.(statusCode := sent.value.status), FaultMessage(sent.value.body.failure, env.callerCancelled))
    ensures sent.Done? && IsSuccessStatus(sent.value.status) && sent.value.body.Done? && IsBlank(sent.value.body.value) ==>
              r == Fail(doc.(statusCode := sent.value.status), EmptyPageMessage)
    ensures r.isSuccess ==>
              r.document == FillDocumentFromHtml(doc.(statusCode := sent.value.status), uri, sent.value.body.value,
                                                 env, maxLinks).(isSuccess := true)
  {
    MessagesDistinct();
    match sent
    case Threw(f) => Fail(doc, FaultMessage(f, env.callerCancelled))
    case Done(response) =>
      var withStatus := doc.(statusCode := response.status);
      if !IsSuccessStatus(response.status) then
        Fail(withStatus, HttpErrorMessage(response.status, response.reason))
      else
        match response.body
        case Threw(f) => Fail(withStatus, FaultMessage(f, env.callerCancelled))
        case Done(html) =>
          if IsBlank(html) then Fail(withStatus, EmptyPageMessage)
          else
            var filled := FillDocumentFromHtml(withStatus, uri, html, env, maxLinks);
            KeptLinksBound(env.parseHtml(html).anchors, uri, env.resolve, env.deEntitize, maxLinks);
            ScrapeResult(true, "", filled.(isSuccess := true))
  }

  lemma KeptLinksBound(anchors: seq<Anchor>, page: Uri, resolve: Resolver, deEntitize: string -> string, maxLinks: int)
    ensures |KeptLinks(anchors, page, resolve, deEntitize, maxLinks)| <= if maxLinks <= 0 then 0 else maxLinks
  {
    KeptLinksCount(anchors, page, resolve, deEntitize, maxLinks);
  }

  /* ---------------- what a run reports ---------------- */

  /** The exception that ended the exchange early, if one did: thrown by
      `GetAsync`, or by the body read after a success status. */
  function ExchangeFailure(sent: Outcome<Response>): Option<Failure> {
    match sent
    case Threw(f) => Some(f)
    case Done(response) =>
      if IsSuccessStatus(response.status) && response.body.Threw? then Some(response.body.failure) else None
  }

  /** The timeout message is reported exactly when a request went out and
      the exchange ended in a cancellation the caller did not ask for. */
  lemma ScrapeTimeoutIff(settings: ScrapingSettings, env: ScrapeEnv, url: Option<string>)
    ensures var run := Scrape(settings, env, url);
      run.result.errorMessage == TimeoutMessage <==>
        run.request.Some? && ExchangeFailure(env.send(run.request.value)) == Some(Canceled) && !env.callerCancelled
  {
    MessagesDistinct();
    var run := Scrape(settings, env, url);
    if run.request.Some? {
      var sent := env.send(run.request.value);
      if sent.Done? && !IsSuccessStatus(sent.value.status) {
        NotHttpMessage(TimeoutMessage, sent.value.status, sent.value.reason);
      }
    }
  }

  /** The network message is reported exactly when a request went out and
      the exchange ended in an `HttpRequestException`. */
  lemma ScrapeNetworkIff(settings: ScrapingSettings, env: ScrapeEnv, url: Option<string>)
    ensures var run := Scrape(settings, env, url);
      run.result.errorMessage == NetworkMessage <==>
        run.request.Some? && ExchangeFailure(env.send(run.request.value)) == Some(RequestFailed)
  {
    MessagesDistinct();
    var run := Scrape(settings, env, url);
    if run.request.Some? {
      var sent := env.send(run.request.value);
      if sent.Done? && !IsSuccessStatus(sent.value.status) {
        NotHttpMessage(NetworkMessage, sent.value.status, sent.value.reason);
      }
    }
  }

  /** The bad-URL message is reported exactly when `TryBuildUri` refuses
      the input, and then nothing is sent. */
  lemma ScrapeBadUrlIff(settings: ScrapingSettings, env: ScrapeEnv, url: Option<string>)
    ensures var run := Scrape(settings, env, url);
      run.result.errorMessage == BadUrlMessage <==> TryBuildUri(url, env.parseAbsolute).None?
    ensures var run := Scrape(settings, env, url);
      TryBuildUri(url, env.parseAbsolute).None? ==>
        && run.request.None?
        && run.result.document == NewDocument(url, env.now).(errorMessage := BadUrlMessage)
  {
    MessagesDistinct();
    var run := Scrape(settings, env, url);
    if run.request.Some? {
      var sent := env.send(run.request.value);
      if sent.Done? && !IsSuccessStatus(sent.value.status) {
        NotHttpMessage(BadUrlMessage, sent.value.status, sent.value.reason);
      }
    }
  }

  /** A status outside 200..299 is recorded in the document, with the
      status message and no page content. */
  lemma ScrapeHttpError(settings: ScrapingSettings, env: ScrapeEnv, url: Option<string>)
    requires Scrape(settings, env, url).request.Some?
    requires var sent := env.send(Scrape(settings, env, url).request.value);
      sent.Done? && !IsSuccessStatus(sent.value.status)
    ensures var run := Scrape(settings, env, url);
      var response := env.send(run.request.value).value;
      && !run.result.isSuccess
      && run.result.errorMessage == HttpErrorMessage(response.status, response.reason)
      && run.result.document.statusCode == response.status
      && run.result.document.title == "" && run.result.document.h1 == ""
      && run.result.document.links == []
  {
  }

  /** A scrape succeeds exactly when the URL is accepted, the request goes
      out, the status is a success and the body is read and not blank; the
      document then holds the page's cleaned title and heading and the links
      `ExtractLinks` keeps. */
  lemma ScrapeSuccessIff(settings: ScrapingSettings, env: ScrapeEnv, url: Option<string>)
    ensures var run := Scrape(settings, env, url);
      run.result.isSuccess <==>
        && run.request.Some?
        && var sent := env.send(run.request.value);
           sent.Done? && IsSuccessStatus(sent.value.status) && sent.value.body.Done? && !IsBlank(sent.value.body.value)
    ensures var run := Scrape(settings, env, url);
      run.result.isSuccess ==>
        var uri := TryBuildUri(url, env.parseAbsolute).value;
        var response := env.send(run.request.value).value;
        var page := env.parseHtml(response.body.value);
        && run.result.document.statusCode == response.status
        && run.result.document.title == CleanText(page.title, env.deEntitize)
        && run.result.document.h1 == CleanText(page.h1, env.deEntitize)
        && run.result.document.links == KeptLinks(page.anchors, uri, env.resolve, env.deEntitize, settings.maxLinks)
  {
  }

  /** A success status with a blank body gives the empty-page failure; the
      status stays recorded and the document has no page content. */
  lemma ScrapeBlankBody(settings: ScrapingSettings, env: ScrapeEnv, url: Option<string>)
    requires Scrape(settings, env, url).request.Some?
    requires var sent := env.send(Scrape(settings, env, url).request.value);
      sent.Done? && IsSuccessStatus(sent.value.status) && sent.value.body.Done? && IsBlank(sent.value.body.value)
    ensures var run := Scrape(settings, env, url);
      var response := env.send(run.request.value).value;
      && run.result == Fail(NewDocument(url, env.now).(statusCode := response.status), EmptyPageMessage)
      && run.result.document.title == "" && run.result.document.h1 == "" && run.result.document.links == []
  {
  }

  /** The generic message is reported exactly when the catch-all clause
      handles a failure: the timer refused the deadline before anything was
      sent, or the exchange ended in a failure neither the timeout clause
      (a caller-requested cancellation included) nor the network clause
      takes. */
  lemma ScrapeProcessingIff(settings: ScrapingSettings, env: ScrapeEnv, url: Option<string>)
    ensures var run := Scrape(settings, env, url);
      run.result.errorMessage == ProcessingMessage <==>
        || (TryBuildUri(url, env.parseAbsolute).Some? && run.request.None?)
        || (&& run.request.Some?
            && var failure := ExchangeFailure(env.send(run.request.value));
               failure.Some? && HandlerFor(failure.value, env.callerCancelled) == CatchAll)
  {
    MessagesDistinct();
    var run := Scrape(settings, env, url);
    if run.request.Some? {
      var sent := env.send(run.request.value);
      if sent.Done? && !IsSuccessStatus(sent.value.status) {
        NotHttpMessage(ProcessingMessage, sent.value.status, sent.value.reason);
      }
    }
  }

  /** An HTTP status message is none of the fixed messages. */
  lemma NotHttpMessage(m: string, status: int, reason: Option<string>)
    requires m in [BadUrlMessage, EmptyPageMessage, TimeoutMessage, NetworkMessage, ProcessingMessage]
    ensures m != HttpErrorMessage(status, reason)
  {
    MessagesDistinct();
    var h := HttpErrorMessage(status, reason);
    assert h[0] == h[..5][0] == 'H';
  }
}
