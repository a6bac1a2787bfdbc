/**
 `OpenWeatherMapService.FetchAsync`: from a city typed by the user to a
 `WeatherFetchResult`, whatever happens on the way, together with the unit
 and language normalisation and the request URL it sends.

 The HTTP exchange, the JSON deserializer, the caller's cancellation state
 and the two clock readings are parameters (`WeatherEnv`). A run records
 the result and the request that was sent, if any.
 */
module Weather {
  import opened Wrappers
  import opened Text
  import opened Numbers
  import opened Clock
  import opened Transport
  import opened Settings
  import opened Query

  /** A C# `double`, carried through unchanged by its IEEE 754 bits. */
  datatype Double = Double(bits: bv64)

  /** `0.0`. */
  const ZeroDouble: Double := Double(0)

  /** A C# `long`. */
  type Int64 = x: int | -0x8000_0000_0000_0000 <= x <= 0x7FFF_FFFF_FFFF_FFFF

  /* ---------------- the provider's payload, as deserialized ---------------- */

  datatype MainInfo = MainInfo(temp: Double, feelsLike: Double, humidity: Int32, pressure: Int32)
  datatype WindInfo = WindInfo(speed: Double)
  datatype WeatherInfo = WeatherInfo(description: Option<string>)
  datatype SysInfo = SysInfo(country: Option<string>)

  /** `OpenWeatherMapResponse`: every reference-typed member may be null,
      and so may each entry of the `weather` list. A missing `dt` reads as 0. */
  datatype Payload = Payload(
    name: Option<string>,
    dt: Int64,
    main: Option<MainInfo>,
    wind: Option<WindInfo>,
    weather: Option<seq<Option<WeatherInfo>>>,
    sys: Option<SysInfo>)

  /** What `JsonSerializer.Deserialize` makes of a body: a payload (null for
      the JSON literal `null`), or a `JsonException`. */
  datatype Decoding = Parsed(payload: Option<Payload>) | Malformed

  /* ---------------- the service's records ---------------- */

  /** `WeatherRecord`, without its database id. */
  datatype WeatherRecord = WeatherRecord(
    city: string,
    country: string,
    temperature: Double,
    feelsLike: Double,
    humidity: Int32,
    pressure: Int32,
    windSpeed: Double,
    description: string,
    apiTimestampUtc: Instant,
    savedAtUtc: Instant,
    units: string,
    rawJson: string)

  /** `WeatherFetchResult`. */
  datatype WeatherFetchResult = WeatherFetchResult(
    isSuccess: bool,
    errorMessage: string,
    record: Option<WeatherRecord>,
    rawJson: string)

  /** Everything outside the service's own code. */
  datatype WeatherEnv = WeatherEnv(
    send: Send,                        // `GetAsync` and `ReadAsStringAsync`
    deserialize: string -> Decoding,   // `JsonSerializer.Deserialize<OpenWeatherMapResponse>`
    callerCancelled: bool,             // the caller's token, when a catch filter reads it
    now: Instant,                      // `DateTime.UtcNow` for a payload without a timestamp
    savedAt: Instant)                  // `DateTime.UtcNow` for `SavedAtUtc`

  /** The result of a fetch and the request it sent, if it sent one. */
  datatype WeatherRun = WeatherRun(result: WeatherFetchResult, request: Option<Request>)

  const CityMessage: string := "Город не может быть пустым"
  const ApiKeyMessage: string := "API ключ OpenWeatherMap не задан. " + "Укажите ключ в appsettings.json"
  const EmptyResponseMessage: string := "API вернул пустой ответ"
  const UnparsableMessage: string := "Не удалось разобрать ответ API"
  const JsonMessage: string := "Ошибка разбора JSON ответа API"
  const TimeoutMessage: string := "Превышено время ожидания ответа API"
  const NetworkMessage: string := "Сетевая ошибка при запросе к API"
  const UnknownMessage: string := "Неизвестная ошибка при запросе к API"

  /** The fixed messages, in the order the code states them. */
  const FixedMessages: seq<string> := [CityMessage, ApiKeyMessage, EmptyResponseMessage, UnparsableMessage,
                                       JsonMessage, TimeoutMessage, NetworkMessage, UnknownMessage]

  /** `$"Ошибка API: {(int)response.StatusCode} {response.ReasonPhrase}"`; a
      null reason phrase prints as nothing. */
  function ApiErrorMessage(status: int, reason: Option<string>): (m: string)
    ensures |m| > 12 && m[..12] == "Ошибка API: "
  {
    "Ошибка API: " + IntToDecimal(status) + " " + reason.GetOr("")
  }

  /** No two of the fixed messages are equal, none is empty, and none is an
      API status message. */
  lemma MessagesDistinct()
    ensures forall i, j :: 0 <= i < j < |FixedMessages| ==> FixedMessages[i] != FixedMessages[j]
    ensures forall i :: 0 <= i < |FixedMessages| ==> FixedMessages[i] != ""
  {
    assert CityMessage[0] == 'Г';
    assert ApiKeyMessage[0] == 'A' && ApiKeyMessage[4] == 'к';
    assert EmptyResponseMessage[0] == 'A' && EmptyResponseMessage[4] == 'в';
    assert UnparsableMessage[0] == 'Н' && UnparsableMessage[2] == ' ';
    assert JsonMessage[0] == 'О';
    assert TimeoutMessage[0] == 'П';
    assert NetworkMessage[0] == 'С';
    assert UnknownMessage[0] == 'Н' && UnknownMessage[2] == 'и';
  }

  /** An API status message is none of the fixed messages. */
  lemma NotApiErrorMessage(m: string, status: int, reason: Option<string>)
    requires m in FixedMessages
    ensures m != ApiErrorMessage(status, reason)
  {
    var h := ApiErrorMessage(status, reason);
    assert h[0] == h[..12][0] == 'О';
    assert h[7] == h[..12][7] == 'A';
    assert JsonMessage[7] == 'р';
    assert CityMessage[0] == 'Г' && ApiKeyMessage[0] == 'A' && EmptyResponseMessage[0] == 'A';
    assert UnparsableMessage[0] == 'Н' && TimeoutMessage[0] == 'П';
    assert NetworkMessage[0] == 'С' && UnknownMessage[0] == 'Н';
  }

  /** The message of the `catch` clause that handles a transport failure. */
  function FaultMessage(f: Failure, callerCancelled: bool): (m: string)
    ensures m == TimeoutMessage <==> f == Canceled && !callerCancelled
    ensures m == NetworkMessage <==> f == RequestFailed
    ensures m == UnknownMessage <==> HandlerFor(f, callerCancelled) == CatchAll
    ensures m in FixedMessages
  {
    MessagesDistinct();
    match HandlerFor(f, callerCancelled)
    case TimeoutHandler => TimeoutMessage
    case NetworkHandler => NetworkMessage
    case CatchAll => UnknownMessage
  }

  /** A failed result: no record. */
  function Failure(message: string, rawJson: string): (r: WeatherFetchResult)
    ensures !r.isSuccess && r.record.None? && r.errorMessage == message && r.rawJson == rawJson
  {
    WeatherFetchResult(false, message, None, rawJson)
  }

  /* ---------------- units and language ---------------- */

  /** The unit systems the provider knows, in their canonical spelling. */
  const UnitNames: set<string> := {"metric", "imperial", "standard"}

  /** `NormalizeUnits`: a recognised unit system, in any case and with any
      surrounding white space, gives its canonical name; anything else,
      blank or null included, gives the fallback. It never fails. */
  function NormalizeUnits(input: Option<string>, fallback: string): (r: string)
    ensures r in UnitNames || r == fallback
    ensures IsNullOrBlank(input) ==> r == fallback
    ensures r != fallback ==> r == Lower(Trim(input.value))
  {
    if IsNullOrBlank(input) then fallback
    else
      var value := Lower(Trim(input.value));
      if value in UnitNames then value else fallback
  }

  /** A string whose lower-case form is trimmed is trimmed itself:
      lower-casing maps no other character to white space. */
  lemma LowerTrimmed(v: string)
    requires IsTrimmed(Lower(v))
    ensures IsTrimmed(v)
  {
  }

  /** Every spelling of a unit system, in any mix of case and with any white
      space around it, is recognised. */
  lemma NormalizeUnitsRecognises(v: string, pre: string, post: string, fallback: string)
    requires Lower(v) in UnitNames
    requires IsBlank(pre) && IsBlank(post)
    ensures NormalizeUnits(Some(pre + v + post), fallback) == Lower(v)
  {
    var c := Lower(v);
    assert c[0] in "mis" && c[|c| - 1] in "cld";
    LowerTrimmed(v);
    TrimAround(pre, v, post);
    var s := pre + v + post;
    assert s[|pre|] == v[0];
  }

  /** Normalising twice changes nothing, provided the fallback is itself
      left alone (as the default `metric` is). */
  lemma NormalizeUnitsIdempotent(input: Option<string>, fallback: string)
    requires NormalizeUnits(Some(fallback), fallback) == fallback
    ensures NormalizeUnits(Some(NormalizeUnits(input, fallback)), fallback) == NormalizeUnits(input, fallback)
  {
    var r := NormalizeUnits(input, fallback);
    if r != fallback {
      UnitNameCanonical(r);
    }
  }

  /** The configured default unit system is a recognised one, so it is its
      own normal form and normalising under it is idempotent. */
  lemma DefaultUnitsRecognised(input: Option<string>)
    ensures var d := DefaultOpenWeatherMap.defaultUnits;
      && d in UnitNames && NormalizeUnits(Some(d), d) == d
      && NormalizeUnits(Some(NormalizeUnits(input, d)), d) == NormalizeUnits(input, d)
  {
    var d := DefaultOpenWeatherMap.defaultUnits;
    UnitNameCanonical(d);
    NormalizeUnitsIdempotent(input, d);
  }

  /** Each canonical unit name is non-blank, trimmed and in lower case. */
  lemma UnitNameCanonical(u: string)
    requires u in UnitNames
    ensures !IsBlank(u) && Lower(Trim(u)) == u
  {
    assert forall i :: 0 <= i < |u| ==> 'a' <= u[i] <= 'z';
    LowerLettersCanonical(u);
  }

  /** A non-empty word of lower-case ASCII letters is its own trimmed,
      lower-case form. */
  lemma LowerLettersCanonical(u: string)
    requires |u| > 0
    requires forall i :: 0 <= i < |u| ==> 'a' <= u[i] <= 'z'
    ensures !IsBlank(u) && Lower(Trim(u)) == u
  {
    assert !IsWhiteSpace(u[0]) && !IsWhiteSpace(u[|u| - 1]);
    TrimOfTrimmed(u);
    assert Lower(u) == u;
  }

  /** The language sent to the provider: the default when the input is null
      or blank, otherwise the input trimmed and in lower case. */
  function NormalizeLanguage(language: Option<string>, default: string): (r: string)
    ensures IsNullOrBlank(language) ==> r == default
    ensures !IsNullOrBlank(language) ==> r == Lower(Trim(language.value))
  {
    if IsNullOrBlank(language) then default else Lower(Trim(language.value))
  }

  /** A language given by the user comes out non-empty, trimmed and lower
      case; normalising it again changes nothing. */
  lemma NormalizeLanguageOfInput(language: string, default: string)
    requires !IsBlank(language)
    ensures var r := NormalizeLanguage(Some(language), default);
      && r != [] && IsTrimmed(r) && Lower(r) == r
      && NormalizeLanguage(Some(r), default) == r
  {
    var t := Trim(language);
    BlankIffTrimEmpty(language);
    TrimSpec(language);
    LowerKeepsWhiteSpace(t);
    LowerIdempotent(t);
    var r := Lower(t);
    TrimOfTrimmed(r);
    assert !IsBlank(r) by {
      assert !IsWhiteSpace(r[0]);
    }
  }

  /* ---------------- the request URL ---------------- */

  /** The query parameters, in the order the code lists them. */
  function RequestQuery(apiKey: string, city: string, units: string, language: string): seq<Pair> {
    [Pair("q", city), Pair("appid", apiKey), Pair("units", units), Pair("lang", language)]
  }

  /** `BuildRequestUrl`: the base URL, `?`, and the escaped parameters. */
  function BuildRequestUrl(settings: OpenWeatherMapSettings, city: string, units: string, language: string): (url: string)
    ensures |url| > |settings.baseUrl| && url[..|settings.baseUrl| + 1] == settings.baseUrl + "?"
  {
    var url := settings.baseUrl + "?" + QueryString(RequestQuery(settings.apiKey, city, units, language));
    assert url[..|settings.baseUrl| + 1] == settings.baseUrl + "?";
    url
  }

  /** The query string of the URL reads back as `q`, `appid`, `units` and
      `lang`, in that order, carrying exactly the city, the API key (as
      configured, untrimmed), the units and the language. */
  lemma RequestUrlQuery(settings: OpenWeatherMapSettings, city: string, units: string, language: string)
    ensures var url := BuildRequestUrl(settings, city, units, language);
      ParseQuery(url[|settings.baseUrl| + 1..]) == Some(RequestQuery(settings.apiKey, city, units, language))
  {
    var ps := RequestQuery(settings.apiKey, city, units, language);
    var url := BuildRequestUrl(settings, city, units, language);
    assert url[|settings.baseUrl| + 1..] == QueryString(ps);
    QueryRoundTrip(ps);
  }

  /* ---------------- the record ---------------- */

  /** The payload passed the completeness check: `main` is present and the
      `weather` list is present and not empty. */
  predicate IsComplete(p: Payload) {
    p.main.Some? && p.weather.Some? && |p.weather.value| > 0
  }

  /** The provider's timestamp when it gives one (`dt > 0`), otherwise the
      current time; `None` where `FromUnixTimeSeconds` throws. */
  function ApiTimestamp(dt: Int64, now: Instant): (r: Option<Instant>)
    ensures dt <= 0 ==> r == Some(now)
    ensures dt > 0 ==> (r.Some? <==> dt <= MaxUnixSeconds)
    ensures dt > 0 && r.Some? ==> 0 <= r.value.ticks && ToUnixTimeSeconds(r.value) == dt
  {
    if dt > 0 then
      if dt <= MaxUnixSeconds then UnixSecondsRoundTrip(dt); FromUnixTimeSeconds(dt)
      else None
    else Some(now)
  }

  /** The record built from a complete payload; `None` where building it
      throws (a null first `weather` entry, or a timestamp out of range). */
  function BuildRecord(p: Payload, city: string, units: string, rawJson: string, now: Instant, savedAt: Instant)
    : (r: Option<WeatherRecord>)
    requires IsComplete(p)
    ensures r.Some? <==> p.weather.value[0].Some? && ApiTimestamp(p.dt, now).Some?
  {
    var first := p.weather.value[0];
    var stamp := ApiTimestamp(p.dt, now);
    if first.None? || stamp.None? then None
    else
      var main := p.main.value;
      Some(WeatherRecord(
        city := if IsNullOrBlank(p.name) then city else Trim(p.name.value),
        country := if p.sys.None? then [] else TrimOrEmpty(p.sys.value.country),
        temperature := main.temp,
        feelsLike := main.feelsLike,
        humidity := main.humidity,
        pressure := main.pressure,
        windSpeed := if p.wind.None? then ZeroDouble else p.wind.value.speed,
        description := TrimOrEmpty(first.value.description),
        apiTimestampUtc := stamp.value,
        savedAtUtc := savedAt,
        units := units,
        rawJson := rawJson))
  }

  /** What the record holds: the provider's city name when it gives a
      non-blank one, the requested city otherwise, both trimmed and never
      empty; the trimmed country and description, or ""; a wind speed of
      zero when the payload has no wind; the provider's timestamp read back
      to the same Unix second, or the current time when it gives none; the
      given units, raw body and save time; the measurements unchanged. */
  lemma RecordFields(p: Payload, city: string, units: string, rawJson: string, now: Instant, savedAt: Instant)
    requires IsComplete(p)
    requires IsTrimmed(city) && city != []
    requires BuildRecord(p, city, units, rawJson, now, savedAt).Some?
    ensures var r := BuildRecord(p, city, units, rawJson, now, savedAt).value;
      && IsTrimmed(r.city) && r.city != []
      && (IsNullOrBlank(p.name) ==> r.city == city)
      && (!IsNullOrBlank(p.name) ==> r.city == Trim(p.name.value))
      && IsTrimmed(r.country)
      && (p.sys.Some? && p.sys.value.country.Some? ==> r.country == Trim(p.sys.value.country.value))
      && (p.sys.None? || p.sys.value.country.None? ==> r.country == [])
      && (p.wind.None? ==> r.windSpeed == ZeroDouble)
      && (p.wind.Some? ==> r.windSpeed == p.wind.value.speed)
      && IsTrimmed(r.description)
      && (p.weather.value[0].value.description.Some? ==>
            r.description == Trim(p.weather.value[0].value.description.value))
      && (p.weather.value[0].value.description.None? ==> r.description == [])
      && (p.dt > 0 ==> ToUnixTimeSeconds(r.apiTimestampUtc) == p.dt)
      && (p.dt <= 0 ==> r.apiTimestampUtc == now)
      && r.temperature == p.main.value.temp && r.feelsLike == p.main.value.feelsLike
      && r.humidity == p.main.value.humidity && r.pressure == p.main.value.pressure
      && r.units == units && r.rawJson == rawJson && r.savedAtUtc == savedAt
  {
    if !IsNullOrBlank(p.name) {
      var n := p.name.value;
      TrimSpec(n);
      BlankIffTrimEmpty(n);
    }
  }

  /* ---------------- FetchAsync ---------------- */

  /** `FetchAsync`. */
  function Fetch(settings: OpenWeatherMapSettings, env: WeatherEnv,
                 city: Option<string>, units: Option<string>, language: Option<string>): (run: WeatherRun)
    ensures run.result.isSuccess <==> run.result.errorMessage == ""
    ensures run.result.isSuccess <==> run.result.record.Some?
    ensures run.result.record.Some? ==> run.result.record.value.rawJson == run.result.rawJson
    ensures IsNullOrBlank(city) ==> run == WeatherRun(Failure(CityMessage, ""), None)
    ensures !IsNullOrBlank(city) && IsBlank(settings.apiKey) ==> run == WeatherRun(Failure(ApiKeyMessage, ""), None)
    ensures run.request.Some? <==>
              !IsNullOrBlank(city) && !IsBlank(settings.apiKey)
              && TimerAccepts(DeadlineSeconds(settings.requestTimeoutSeconds))
    ensures run.request.Some? ==>
              run.request.value == Request(
                BuildRequestUrl(settings, Trim(city.value),
                                NormalizeUnits(units, settings.defaultUnits),
                                NormalizeLanguage(language, settings.defaultLanguage)),
                DeadlineSeconds(settings.requestTimeoutSeconds))
  {
    MessagesDistinct();
    if IsNullOrBlank(city) then WeatherRun(Failure(CityMessage, ""), None)
    else if IsBlank(settings.apiKey) then WeatherRun(Failure(ApiKeyMessage, ""), None)
    else
      var trimmedCity := Trim(city.value);
      var normalizedUnits := NormalizeUnits(units, settings.defaultUnits);
      var normalizedLanguage := NormalizeLanguage(language, settings.defaultLanguage);
      var url := BuildRequestUrl(settings, trimmedCity, normalizedUnits, normalizedLanguage);
      var deadline := DeadlineSeconds(settings.requestTimeoutSeconds);
      if !TimerAccepts(deadline) then
        WeatherRun(Failure(FaultMessage(OtherFailure, env.callerCancelled), ""), None)
      else
        var request := Request(url, deadline);
        WeatherRun(Respond(env, trimmedCity, normalizedUnits, env.send(request)), Some(request))
  }

  /** Everything after the request went out: the response, or the failure
      `GetAsync` threw. The body is read whatever the status. */
  function Respond(env: WeatherEnv, city: string, units: string, sent: Outcome<Response>): (r: WeatherFetchResult)
    ensures r.isSuccess <==> r.errorMessage == ""
    ensures r.isSuccess <==> r.record.Some?
    ensures r.record.Some? ==> r.record.value.rawJson == r.rawJson
  {
    MessagesDistinct();
    match sent
    case Threw(f) => Failure(FaultMessage(f, env.callerCancelled), "")
    case Done(response) =>
      match response.body
      case Threw(f) => Failure(FaultMessage(f, env.callerCancelled), "")
      case Done(rawJson) =>
        if !IsSuccessStatus(response.status) then
          Failure(ApiErrorMessage(response.status, response.reason), rawJson)
        else if IsBlank(rawJson) then Failure(EmptyResponseMessage, "")
        else
          match env.deserialize(rawJson)
          case Malformed => Failure(JsonMessage, "")
          case Parsed(payload) => Interpret(payload, city, units, rawJson, env.now, env.savedAt)
  }

  /** A deserialized payload: incomplete ones are refused with the body
      kept; complete ones become the record. */
  function Interpret(payload: Option<Payload>, city: string, units: string, rawJson: string, now: Instant, savedAt: Instant)
    : (r: WeatherFetchResult)
    ensures r.isSuccess <==> r.errorMessage == ""
    ensures r.isSuccess <==> r.record.Some?
    ensures r.record.Some? ==> r.record.value.rawJson == r.rawJson
  {
    MessagesDistinct();
    if payload.None? || !IsComplete(payload.value) then Failure(UnparsableMessage, rawJson)
    else
      match BuildRecord(payload.value, city, units, rawJson, now, savedAt)
      case None => Failure(UnknownMessage, "")
      case Some(record) => WeatherFetchResult(true, "", Some(record), rawJson)
  }

  /* ---------------- what a fetch reports ---------------- */

  /** The exception that ended the exchange early, if one did: thrown by
      `GetAsync`, or by the body read (whatever the status). */
  function ExchangeFailure(sent: Outcome<Response>): Option<Failure> {
    match sent
    case Threw(f) => Some(f)
    case Done(response) => if response.body.Threw? then Some(response.body.failure) else None
  }

  /** The body that was read, if the exchange got that far. */
  function ReadBody(sent: Outcome<Response>): Option<string> {
    if sent.Done? && sent.value.body.Done? then Some(sent.value.body.value) else None
  }

  /** The timeout message is reported exactly when a request went out and
      the exchange ended in a cancellation the caller did not ask for. */
  lemma FetchTimeoutIff(settings: OpenWeatherMapSettings, env: WeatherEnv,
                        city: Option<string>, units: Option<string>, language: Option<string>)
    ensures var run := Fetch(settings, env, city, units, language);
      run.result.errorMessage == TimeoutMessage <==>
        run.request.Some? && ExchangeFailure(env.send(run.request.value)) == Some(Canceled) && !env.callerCancelled
  {
    MessagesDistinct();
    var run := Fetch(settings, env, city, units, language);
    if run.request.Some? {
      var sent := env.send(run.request.value);
      if sent.Done? && sent.value.body.Done? && !IsSuccessStatus(sent.value.status) {
        NotApiErrorMessage(TimeoutMessage, sent.value.status, sent.value.reason);
      }
    }
  }

  /** The network message is reported exactly when a request went out and
      the exchange ended in an `HttpRequestException`. */
  lemma FetchNetworkIff(settings: OpenWeatherMapSettings, env: WeatherEnv,
                        city: Option<string>, units: Option<string>, language: Option<string>)
    ensures var run := Fetch(settings, env, city, units, language);
      run.result.errorMessage == NetworkMessage <==>
        run.request.Some? && ExchangeFailure(env.send(run.request.value)) == Some(RequestFailed)
  {
    MessagesDistinct();
    var run := Fetch(settings, env, city, units, language);
    if run.request.Some? {
      var sent := env.send(run.request.value);
      if sent.Done? && sent.value.body.Done? && !IsSuccessStatus(sent.value.status) {
        NotApiErrorMessage(NetworkMessage, sent.value.status, sent.value.reason);
      }
    }
  }

  /** A status outside 200..299 gives a failure with no record that keeps
      the body as its raw JSON. */
  lemma FetchApiError(settings: OpenWeatherMapSettings, env: WeatherEnv,
                      city: Option<string>, units: Option<string>, language: Option<string>)
    requires Fetch(settings, env, city, units, language).request.Some?
    requires var sent := env.send(Fetch(settings, env, city, units, language).request.value);
      ReadBody(sent).Some? && !IsSuccessStatus(sent.value.status)
    ensures var run := Fetch(settings, env, city, units, language);
      var response := env.send(run.request.value).value;
      run.result == Failure(ApiErrorMessage(response.status, response.reason), response.body.value)
  {
  }

  /** A success status with a blank body gives a failure with no record and
      an empty raw JSON. */
  lemma FetchBlankBody(settings: OpenWeatherMapSettings, env: WeatherEnv,
                       city: Option<string>, units: Option<string>, language: Option<string>)
    requires Fetch(settings, env, city, units, language).request.Some?
    requires var sent := env.send(Fetch(settings, env, city, units, language).request.value);
      ReadBody(sent).Some? && IsSuccessStatus(sent.value.status) && IsBlank(ReadBody(sent).value)
    ensures Fetch(settings, env, city, units, language).result == Failure(EmptyResponseMessage, "")
  {
  }

  /** A body that deserializes to null, or to a payload without `main` or
      with an absent or empty `weather` list, gives a failure with no record
      that keeps the body as its raw JSON. */
  lemma FetchIncomplete(settings: OpenWeatherMapSettings, env: WeatherEnv,
                        city: Option<string>, units: Option<string>, language: Option<string>)
    requires Fetch(settings, env, city, units, language).request.Some?
    requires var sent := env.send(Fetch(settings, env, city, units, language).request.value);
      && ReadBody(sent).Some? && IsSuccessStatus(sent.value.status) && !IsBlank(ReadBody(sent).value)
      && var decoded := env.deserialize(ReadBody(sent).value);
         decoded.Parsed? && (decoded.payload.None? || !IsComplete(decoded.payload.value))
    ensures var run := Fetch(settings, env, city, units, language);
      run.result == Failure(UnparsableMessage, ReadBody(env.send(run.request.value)).value)
  {
  }

  /** The JSON message is reported exactly when a non-blank body with a
      success status fails to deserialize. */
  lemma FetchJsonIff(settings: OpenWeatherMapSettings, env: WeatherEnv,
                     city: Option<string>, units: Option<string>, language: Option<string>)
    ensures var run := Fetch(settings, env, city, units, language);
      run.result.errorMessage == JsonMessage <==>
        && run.request.Some?
        && var sent := env.send(run.request.value);
           && ReadBody(sent).Some? && IsSuccessStatus(sent.value.status) && !IsBlank(ReadBody(sent).value)
           && env.deserialize(ReadBody(sent).value).Malformed?
  {
    MessagesDistinct();
    var run := Fetch(settings, env, city, units, language);
    if run.request.Some? {
      var sent := env.send(run.request.value);
      if sent.Done? && sent.value.body.Done? && !IsSuccessStatus(sent.value.status) {
        NotApiErrorMessage(JsonMessage, sent.value.status, sent.value.reason);
      }
    }
  }

  /** A fetch succeeds exactly when the guards pass, the request goes out,
      the body is read with a success status, is not blank, deserializes to
      a complete payload whose first `weather` entry is not null, and its
      timestamp (if any) is in range. The record is then the one built from
      that payload for the trimmed city and the normalised units, and the
      result keeps the same raw body. */
  lemma FetchSuccessIff(settings: OpenWeatherMapSettings, env: WeatherEnv,
                        city: Option<string>, units: Option<string>, language: Option<string>)
    ensures var run := Fetch(settings, env, city, units, language);
      run.result.isSuccess <==>
        && run.request.Some?
        && var sent := env.send(run.request.value);
           && ReadBody(sent).Some? && IsSuccessStatus(sent.value.status) && !IsBlank(ReadBody(sent).value)
           && var decoded := env.deserialize(ReadBody(sent).value);
              && decoded.Parsed? && decoded.payload.Some? && IsComplete(decoded.payload.value)
              && decoded.payload.value.weather.value[0].Some?
              && ApiTimestamp(decoded.payload.value.dt, env.now).Some?
    ensures var run := Fetch(settings, env, city, units, language);
      run.result.isSuccess ==>
        var body := ReadBody(env.send(run.request.value)).value;
        var p := env.deserialize(body).payload.value;
        && run.result.rawJson == body
        && run.result.record == BuildRecord(p, Trim(city.value), NormalizeUnits(units, settings.defaultUnits),
                                            body, env.now, env.savedAt)
  {
  }

  /** The unknown-error message is reported exactly when the catch-all
      clause handles a failure: the timer refused the deadline before
      anything was sent; the exchange ended in a failure neither the timeout
      clause (a caller-requested cancellation included) nor the network
      clause takes; or building the record from a complete payload threw,
      on a null first `weather` entry or a timestamp out of range. */
  lemma FetchUnknownIff(settings: OpenWeatherMapSettings, env: WeatherEnv,
                        city: Option<string>, units: Option<string>, language: Option<string>)
    ensures var run := Fetch(settings, env, city, units, language);
      run.result.errorMessage == UnknownMessage <==>
        || (!IsNullOrBlank(city) && !IsBlank(settings.apiKey) && run.request.None?)
        || (&& run.request.Some?
            && var failure := ExchangeFailure(env.send(run.request.value));
               failure.Some? && HandlerFor(failure.value, env.callerCancelled) == CatchAll)
        || (&& run.request.Some?
            && var sent := env.send(run.request.value);
               && ReadBody(sent).Some? && IsSuccessStatus(sent.value.status) && !IsBlank(ReadBody(sent).value)
               && var decoded := env.deserialize(ReadBody(sent).value);
                  && decoded.Parsed? && decoded.payload.Some? && IsComplete(decoded.payload.value)
                  && (decoded.payload.value.weather.value[0].None?
                      || ApiTimestamp(decoded.payload.value.dt, env.now).None?))
  {
    MessagesDistinct();
    var run := Fetch(settings, env, city, units, language);
    if run.request.Some? {
      var sent := env.send(run.request.value);
      if sent.Done? && sent.value.body.Done? && !IsSuccessStatus(sent.value.status) {
        NotApiErrorMessage(UnknownMessage, sent.value.status, sent.value.reason);
      }
    }
  }

  /** The record of a successful fetch names a non-empty, trimmed city: the
      provider's name when it gives a non-blank one, the requested city
      otherwise. */
  lemma FetchRecordCity(settings: OpenWeatherMapSettings, env: WeatherEnv,
                        city: Option<string>, units: Option<string>, language: Option<string>)
    requires Fetch(settings, env, city, units, language).result.isSuccess
    ensures var run := Fetch(settings, env, city, units, language);
      var r := run.result.record.value;
      var p := env.deserialize(ReadBody(env.send(run.request.value)).value).payload.value;
      && r.city != [] && IsTrimmed(r.city)
      && r.city == (if IsNullOrBlank(p.name) then Trim(city.value) else Trim(p.name.value))
      && r.units == NormalizeUnits(units, settings.defaultUnits)
  {
    FetchSuccessIff(settings, env, city, units, language);
    var run := Fetch(settings, env, city, units, language);
    var body := ReadBody(env.send(run.request.value)).value;
    var p := env.deserialize(body).payload.value;
    var c := Trim(city.value);
    TrimSpec(city.value);
    BlankIffTrimEmpty(city.value);
    RecordFields(p, c, NormalizeUnits(units, settings.defaultUnits), body, env.now, env.savedAt);
  }
}
