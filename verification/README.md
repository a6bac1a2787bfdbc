# Weather fetcher and page scraper: a Dafny model of the decision core

The system is a console tool with two acquisition pipelines.

- `OpenWeatherMapService` fetches the current weather for a city from the OpenWeatherMap API. It normalises the provider's JSON payload into a `WeatherRecord`.
- `ScrapingService` fetches an HTML page. It extracts the page's title, first heading and links into a `ScrapeDocument`.

Both pipelines turn every outcome of the exchange into a result record: a bad input, an HTTP error status, an empty body, a timeout, a network error or any other fault all become records. This holds as long as logging and HTML parsing do not throw; "## Left out" says what happens when they do. The console front end adds three small formatting helpers.

This project models these parts as pure Dafny functions over immutable datatypes:

- the decision logic of both pipelines;
- the link extraction loop;
- the text, unit and language normalisation;
- the percent-encoded request URL;
- the three console helpers.

Everything outside the services' own code is a parameter of the model:

- the HTTP exchange;
- the HTML parser;
- HTML entity decoding;
- the URI parser and resolver;
- the JSON deserializer;
- the caller's cancellation state;
- the clock.

A run of either pipeline returns its result together with the request it sent, if any. "No request was made" is therefore a statement about the model, not a comment.

Modules, one per file:

| file | module | models |
|---|---|---|
| `wrappers.dfy` | `Wrappers` | `Option` |
| `text.dfy` | `Text` | .NET white space, `Trim`, ASCII case folding, `Regex.Replace(s, "\\s+", " ")`, `CleanText` |
| `numbers.dfy` | `Numbers` | `int` printing and `int.TryParse` |
| `clock.dfy` | `Clock` | `DateTime` ticks and `DateTimeOffset.FromUnixTimeSeconds` |
| `transport.dfy` | `Transport` | the HTTP exchange as a value, the deadline, the `catch` clause that handles a failure |
| `settings.dfy` | `Settings` | `OpenWeatherMapSettings`, `ScrapingSettings` and their defaults |
| `links.dfy` | `Links` | `ScrapingService.ExtractLinks` |
| `scraping.dfy` | `Scraping` | `ScrapeAsync`, `FillDocumentFromHtml`, `TryBuildUri` |
| `utf8.dfy` | `Utf8` | UTF-8 encoding of Unicode scalar values and its strict decoder |
| `percent.dfy` | `PercentEncoding` | `Uri.EscapeDataString` (section 2.1 of RFC 3986, unreserved set of its section 2.3) and its inverse |
| `query.dfy` | `Query` | `key=value` fields joined by `&`, and reading them back |
| `weather.dfy` | `Weather` | `FetchAsync`, `NormalizeUnits`, language defaulting, `BuildRequestUrl`, record construction |
| `utf16.dfy` | `Utf16` | .NET strings as UTF-16 code units: encoding a text, surrogate pairs, `IsNullOrWhiteSpace` on code units |
| `console.dfy` | `ConsoleFormat` | `TryParsePositiveInt`, `Truncate`, `GetTemperatureUnitSymbol` |

## Behaviour that may surprise

In each of these cases the code does something other than what one might expect, and the model follows the code.

- **Caller cancellation.** One might expect a cancellation requested by the caller to propagate out of the service. In the code, the timeout `catch` carries the filter `when (!cancellationToken.IsCancellationRequested)`. A caller-requested cancellation therefore skips that clause and is caught by the generic `catch (Exception)`. It comes back as the generic failure message: "Ошибка обработки HTML-страницы" for the scraper, "Неизвестная ошибка при запросе к API" for the weather service. It is still not reported as a timeout (`Scraping.ScrapeTimeoutIff`, `Weather.FetchTimeoutIff`), but it does not propagate (`Transport.HandlerFor`).
- **Status code after a timeout.** One might expect a scrape that timed out always to have status code 0. In the code this depends on where the failure happens. `GetAsync` is called without a completion option, so it buffers the whole body before it returns. A deadline that expires during the headers or during the body transfer therefore throws from `GetAsync`, before `StatusCode` is assigned (`ScrapingService.cs:46-47`), and the status stays 0. `ReadAsStringAsync` (`ScrapingService.cs:62`) then reads an already buffered body. The failure it can still raise is a decoding failure, for instance an unknown charset, and that reaches the generic `catch` with the real status already recorded. The model lets the body read end in any failure after the status is recorded (`Scraping.Exchange`). This is wider than what the runtime can produce; see "## Left out".
- **Non-2xx body.** One might expect the body of a non-2xx response to be kept for diagnostics by both services. The scraper does not read the body of a non-2xx response. The weather service reads the body before looking at the status, and keeps it as `RawJson`.
- **URL of a bad-URL scrape.** One might expect a stored URL always to be an absolute http/https address. A scrape refused by `TryBuildUri` still stores the trimmed input (or "" for null) as its URL.
- **Timer limit.** A configured timeout above 4294967 seconds makes `CancelAfter` throw before any request is sent. The generic `catch` reports it (`Transport.DeadlineArmsTimer`, and the `request` conditions of `Scraping.Scrape` and `Weather.Fetch`).

## Model

| member | source | states |
|---|---|---|
| Text.CleanText | src/Services/ScrapingService.cs:176-183 | "" for a null or blank value; otherwise the words of the entity-decoded text joined by single spaces; the result is always normalised: trimmed, its only white space single spaces between words |
| Text.CleanTextEmptyIff | src/Services/ScrapingService.cs:176-183 | the cleaned text is empty exactly when the value is null or blank, or decodes to white space only |
| Text.CleanTextIdempotent | src/Services/ScrapingService.cs:176-183 | without entities to decode, cleaning an already cleaned text changes nothing |
| Text.TrimCollapseIsJoinWords | src/Services/ScrapingService.cs:182 | collapsing every white-space run to one space and trimming gives the text's words joined by single spaces (an independent reference definition) |
| Text.WordsOfJoinWords | src/Services/ScrapingService.cs:182 | splitting into words undoes joining words by single spaces |
| Text.TrimSpec | src/Services/ScrapingService.cs:24 | `Trim` returns a contiguous slice with no white space at either end, and everything cut off is white space |
| Text.TrimIdempotent | src/Services/ScrapingService.cs:24 | trimming twice is trimming once |
| Text.Trim | src/Services/ScrapingService.cs:24 | trimming never lengthens a string and leaves no white space at either end |
| Text.TrimOrEmpty | src/Services/OpenWeatherMapService.cs:92 | `?.Trim() ?? string.Empty` gives "" for null and the trimmed string otherwise; the result is always trimmed |
| Text.Collapse | src/Services/ScrapingService.cs:182 | replacing white-space runs by one space never lengthens a string, and gives "" exactly for "" |
| Text.Lower | src/Services/OpenWeatherMapService.cs:43 | lower-casing keeps the length and folds each character on its own |
| Text.BlankIffTrimEmpty | src/Services/ScrapingService.cs:153-156 | a string is blank exactly when trimming leaves nothing |
| Text.TrimAround | src/Services/OpenWeatherMapService.cs:179 | trimming removes exactly the white space around a trimmed string |
| Text.LowerKeepsWhiteSpace | src/Services/OpenWeatherMapService.cs:43 | lower-casing keeps a string's blankness and its trimmedness |
| Links.Target | src/Services/ScrapingService.cs:158-159 | a link's target is the resolved absolute URI when resolution against the page succeeds, else the trimmed raw `href`; it is never empty |
| Links.Label | src/Services/ScrapingService.cs:164-168 | a link's text is the cleaned inner text, or the target when that is empty; it is never empty |
| Links.Candidate | src/Services/ScrapingService.cs:153-169 | an anchor contributes nothing exactly when its `href` is blank; otherwise a link to its target with its label |
| Links.DistinctKeepsFirsts | src/Services/ScrapingService.cs:161-162 | every link kept by de-duplication is the first occurrence of its case-insensitive target |
| Links.DistinctKeepsAllFirsts | src/Services/ScrapingService.cs:161-162 | every first occurrence of a case-insensitive target is kept |
| Links.DistinctUnique | src/Services/ScrapingService.cs:146-162 | de-duplicated links have pairwise distinct case-insensitive targets |
| Links.Distinct | src/Services/ScrapingService.cs:146-162 | de-duplication never lengthens the sequence |
| Links.DistinctCount | src/Services/ScrapingService.cs:146-162 | de-duplication keeps exactly one link per case-insensitive target |
| Links.KeptLinks | src/Services/ScrapingService.cs:138-174 | no links for `MaxLinks <= 0`; otherwise at most `MaxLinks` links, and they are the first of the de-duplicated candidates |
| Links.ExtractLinks | src/Services/ScrapingService.cs:138-174 | the loop, with its early exit at the cap, its skipping of blank hrefs and its hash-set check, returns exactly the de-duplicated candidates cut at `MaxLinks` |
| Links.StopsAtCap | src/Services/ScrapingService.cs:148-151 | stopping the walk once `MaxLinks` links are collected gives the same links as de-duplicating all anchors and then taking the first `MaxLinks` |
| Links.KeptLinksCount | src/Services/ScrapingService.cs:150-151 | the number of links is min(number of distinct case-insensitive targets among non-blank hrefs, `MaxLinks`), 0 when `MaxLinks <= 0`, and the links are the first distinct ones in document order |
| Links.KeptLinksUnique | src/Services/ScrapingService.cs:146-162 | no two extracted links share a target under case-insensitive comparison |
| Links.KeptLinksFromAnchors | src/Services/ScrapingService.cs:153-169 | every extracted link comes from an anchor with a non-blank `href`, and has a non-empty target and a non-empty text |
| Scraping.TryBuildUri | src/Services/ScrapingService.cs:185-197 | a URI is built exactly when the trimmed input parses as an absolute URI whose scheme is `http` or `https` |
| Scraping.NewDocument | src/Models/ScrapeDocument.cs:10-17 | a fresh document has status 0, no verdict, empty message, title, heading and links, the trimmed URL and the current time |
| Scraping.Fail | src/Services/ScrapingService.cs:30-37 | a failure result carries the same verdict and message as its document |
| Scraping.HttpErrorMessage | src/Services/ScrapingService.cs:52 | the status message starts with `HTTP ` |
| Scraping.FaultMessage | src/Services/ScrapingService.cs:88-125 | the timeout message exactly for a cancellation the caller did not request, the network message exactly for `HttpRequestException`, the generic message exactly when the catch-all handles the failure |
| Scraping.FillDocumentFromHtml | src/Services/ScrapingService.cs:128-136 | the document's title and heading are the parsed page's title and first heading, cleaned; its links are the links extracted from the page's anchors; the title, heading and links are normalised; its URL, status, verdict, message and time are untouched |
| Scraping.Scrape | src/Services/ScrapingService.cs:20-126 | result and document always agree; the URL is the trimmed input; success exactly when the message is empty; a failure has no title, heading or links; at most `MaxLinks` links; a request goes out exactly when the URL is accepted and the timer can be armed, with the deadline `max(5, timeout)`; a bad URL yields the bad-URL failure with status 0 |
| Scraping.Exchange | src/Services/ScrapingService.cs:41-126 | after the request: success exactly for a 2xx status with a non-blank body; a failure thrown by `GetAsync` maps to its handler's message and leaves the status 0; a non-2xx status gives the status message; after a 2xx status, a failed body read gives its handler's message and an empty or blank body gives the empty-page message, both with the status kept; on success the document is the page filled in from the body, with the status recorded |
| Scraping.ScrapeBadUrlIff | src/Services/ScrapingService.cs:28-39 | the bad-URL message appears exactly when the URL is refused, and then no request is made and the document is the fresh one with that message |
| Scraping.ScrapeHttpError | src/Services/ScrapingService.cs:47-60 | a non-2xx status is recorded in the document, with the status message and no title, heading or links |
| Scraping.ScrapeBlankBody | src/Services/ScrapingService.cs:62-75 | a 2xx status with an empty or blank body gives the empty-page failure on the fresh document with the status recorded, and no title, heading or links |
| Scraping.ScrapeTimeoutIff | src/Services/ScrapingService.cs:88-99 | the timeout message appears exactly when a request went out and ended in a cancellation the caller did not request |
| Scraping.ScrapeNetworkIff | src/Services/ScrapingService.cs:100-112 | the network message appears exactly when a request went out and ended in an `HttpRequestException` |
| Scraping.ScrapeProcessingIff | src/Services/ScrapingService.cs:41-125 | the generic message appears exactly when the URL is accepted but no request goes out because the timer refuses the deadline, or when a request went out and ended in a failure that neither the timeout clause nor the network clause takes |
| Scraping.ScrapeSuccessIff | src/Services/ScrapingService.cs:62-86 | a scrape succeeds exactly when the request went out and returned a 2xx status with a readable non-blank body; the document then holds the cleaned title, heading and extracted links |
| Transport.DeadlineSeconds | src/Services/ScrapingService.cs:44 | the deadline is at least 5 seconds and at least the configured value, and is one of them |
| Transport.HandlerFor | src/Services/OpenWeatherMapService.cs:116-153 | the timeout clause handles exactly a cancellation the caller did not request; the network clause exactly an `HttpRequestException` |
| Transport.DeadlineArmsTimer | src/Services/OpenWeatherMapService.cs:50 | the timer is armed exactly when the configured timeout is at most 4294967 seconds |
| Clock.FromUnixTimeSeconds | src/Services/OpenWeatherMapService.cs:99-101 | the conversion is defined exactly for the seconds of years 1 to 9999, and gives a non-negative tick count |
| Clock.UnixSecondsRoundTrip | src/Services/OpenWeatherMapService.cs:100 | converting back to Unix seconds gives the seconds that went in |
| Clock.FromUnixMonotone | src/Services/OpenWeatherMapService.cs:100 | later seconds give later instants |
| Numbers.IntToDecimal | src/Services/ScrapingService.cs:52 | the decimal text is non-empty digits, with a leading `-` for negative numbers |
| Numbers.DigitsOfNat | src/Services/ScrapingService.cs:52 | reading the printed digits gives the number back |
| Numbers.ParseInt32OfDecimal | src/Services/ConsoleApplication.cs:267 | `int.TryParse` reads back any printed `int`, with white space around it |
| Numbers.ParseInt32 | src/Services/ConsoleApplication.cs:267 | `int.TryParse` fails on null, and a string it reads contains at least one digit |
| Numbers.ParseInt32Sound | src/Services/ConsoleApplication.cs:267 | whatever `int.TryParse` reads splits into leading white, an optional `+` or `-`, one or more digits, trailing white and NUL characters, and the value read is the signed value of those digits; trailing text of any other kind makes it fail |
| Numbers.ParseInt32Complete | src/Services/ConsoleApplication.cs:267 | every string of that shape whose value fits an `int` is read as that value, trailing NULs included |
| Utf8.DecodeEncode | src/Services/OpenWeatherMapService.cs:167 | decoding the UTF-8 bytes of a string gives the string back |
| Utf8.EncodeInjective | src/Services/OpenWeatherMapService.cs:167 | different strings have different UTF-8 bytes |
| PercentEncoding.PercentByte | src/Services/OpenWeatherMapService.cs:167 | a byte is escaped as `%` and two upper-case hexadecimal digits whose value is the byte |
| PercentEncoding.EscapeChar | src/Services/OpenWeatherMapService.cs:167 | a character is left literal exactly when it is unreserved |
| PercentEncoding.EscapeDataString | src/Services/OpenWeatherMapService.cs:167 | the escaped text is no shorter than the input and holds only unreserved characters, `%` and hexadecimal digits |
| PercentEncoding.EscapeRoundTrip | src/Services/OpenWeatherMapService.cs:167 | unescaping the escaped text gives the input back |
| PercentEncoding.EscapeUnreserved | src/Services/OpenWeatherMapService.cs:167 | a string of unreserved characters is left unchanged |
| Query.SplitJoin | src/Services/OpenWeatherMapService.cs:166 | splitting on a separator undoes joining on it when no part contains it |
| Query.Field | src/Services/OpenWeatherMapService.cs:167 | an escaped `key=value` field never contains `&` |
| Query.QueryRoundTrip | src/Services/OpenWeatherMapService.cs:166-167 | the query string reads back as the same keys and values in the same order |
| Weather.NormalizeUnits | src/Services/OpenWeatherMapService.cs:172-188 | the result is `metric`, `imperial`, `standard` or the fallback; null or blank input gives the fallback; anything other than the fallback is the trimmed lower-case input |
| Weather.NormalizeUnitsRecognises | src/Services/OpenWeatherMapService.cs:179-185 | a unit system in any mix of case, with any white space around it, gives its canonical lower-case name |
| Weather.NormalizeUnitsIdempotent | src/Services/OpenWeatherMapService.cs:172-188 | normalising twice is normalising once, when the fallback is its own normal form |
| Weather.DefaultUnitsRecognised | src/Models/AppSettings.cs:27 | the default `metric` is a recognised unit system, so normalising under it is idempotent |
| Weather.NormalizeLanguage | src/Services/OpenWeatherMapService.cs:41-43 | the default language for null or blank input, otherwise the trimmed lower-case input |
| Weather.NormalizeLanguageOfInput | src/Services/OpenWeatherMapService.cs:41-43 | a language given by the user comes out non-empty, trimmed and lower case, and normalising it again changes nothing |
| Weather.BuildRequestUrl | src/Services/OpenWeatherMapService.cs:156-170 | the URL starts with the base URL followed by `?` |
| Weather.RequestUrlQuery | src/Services/OpenWeatherMapService.cs:156-170 | the query string after `?` reads back as exactly `q`, `appid`, `units`, `lang` in that order, with the trimmed city, the configured key, the units and the language |
| Weather.ApiErrorMessage | src/Services/OpenWeatherMapService.cs:60 | the status message starts with `Ошибка API: ` |
| Weather.FaultMessage | src/Services/OpenWeatherMapService.cs:116-153 | the timeout message exactly for a cancellation the caller did not request, the network message exactly for `HttpRequestException`, the unknown-error message exactly when the catch-all handles the failure |
| Weather.Failure | src/Models/OperationResults.cs:3-9 | a failure has no record and carries the given message and raw JSON |
| Weather.ApiTimestamp | src/Services/OpenWeatherMapService.cs:99-101 | the current time when `dt <= 0`; otherwise defined exactly for `dt` in range, and then the instant reads back as `dt` Unix seconds |
| Weather.BuildRecord | src/Services/OpenWeatherMapService.cs:89-105 | a record is built exactly when the first `weather` entry is not null and the timestamp is in range |
| Weather.RecordFields | src/Services/OpenWeatherMapService.cs:89-105 | the record's city is the trimmed provider name when non-blank, else the requested city, never empty; the country is the trimmed provider country or ""; the description is the trimmed description of the first `weather` entry, or "" when it has none; the wind speed is 0 without wind; the timestamp reads back as `dt` or is `now`; measurements, units, raw JSON and save time are carried over |
| Weather.Fetch | src/Services/OpenWeatherMapService.cs:20-154 | success exactly when the message is empty and exactly when there is a record; the record's raw JSON is the result's; a blank city fails first and a blank API key second, neither sending a request; a request goes out exactly when both guards pass and the timer can be armed, to the URL built from the trimmed city and the normalised units and language |
| Weather.Respond | src/Services/OpenWeatherMapService.cs:47-153 | after the request, success exactly when the message is empty and exactly when there is a record, whose raw JSON is the result's |
| Weather.Interpret | src/Services/OpenWeatherMapService.cs:79-114 | for a deserialized payload, success exactly when the message is empty and exactly when there is a record |
| Weather.FetchApiError | src/Services/OpenWeatherMapService.cs:55-63 | a non-2xx status gives a failure with no record whose raw JSON is the body |
| Weather.FetchBlankBody | src/Services/OpenWeatherMapService.cs:65-72 | a 2xx status with a blank body gives a failure with no record and empty raw JSON |
| Weather.FetchIncomplete | src/Services/OpenWeatherMapService.cs:79-87 | a null payload, or one without `main` or with an absent or empty `weather` list, gives a failure with no record that keeps the body |
| Weather.IsComplete | src/Services/OpenWeatherMapService.cs:79 | the completeness check: `main` present and a present, non-empty `weather` list (a definition; its consequences are in `Weather.FetchIncomplete` and `Weather.FetchSuccessIff`) |
| Weather.FetchJsonIff | src/Services/OpenWeatherMapService.cs:134-143 | the JSON message appears exactly when a non-blank 2xx body fails to deserialize |
| Weather.FetchTimeoutIff | src/Services/OpenWeatherMapService.cs:116-123 | the timeout message appears exactly when a request went out and ended in a cancellation the caller did not request |
| Weather.FetchNetworkIff | src/Services/OpenWeatherMapService.cs:124-133 | the network message appears exactly when a request went out and ended in an `HttpRequestException` |
| Weather.FetchUnknownIff | src/Services/OpenWeatherMapService.cs:144-153 | the unknown-error message appears exactly when both guards pass but the timer refuses the deadline, when the exchange ended in a failure that only the catch-all takes, or when a complete payload has a null first `weather` entry or a `dt` out of range |
| Weather.FetchSuccessIff | src/Services/OpenWeatherMapService.cs:89-114 | a fetch succeeds exactly when the body of a 2xx response is non-blank and deserializes to a complete payload with a non-null first entry and an in-range timestamp; the record is then built from it and the result keeps the body |
| Weather.FetchRecordCity | src/Services/OpenWeatherMapService.cs:91 | a successful record names a non-empty trimmed city, the provider's when non-blank, and carries the normalised units |
| ConsoleFormat.TryParsePositiveInt | src/Services/ConsoleApplication.cs:265-273 | the parsed value exactly when `int.TryParse` succeeds with a value above zero, else the default; always positive with a positive default |
| ConsoleFormat.TryParsePositiveIntOfDecimal | src/Services/ConsoleApplication.cs:265-273 | a printed positive number, with white space around it, is read back; zero and negative numbers give the default |
| ConsoleFormat.Truncate | src/Services/ConsoleApplication.cs:275-288 | "" for a null or blank string; the string unchanged when it has at most `maxLength` UTF-16 code units; otherwise its first `maxLength` code units and `...`, exactly `maxLength + 3` code units long |
| ConsoleFormat.TruncateBound | src/Services/ConsoleApplication.cs:275-288 | the result never has more than `maxLength + 3` code units, and is empty exactly for a null or blank string |
| ConsoleFormat.TruncateFits | src/Services/ConsoleApplication.cs:275-288 | truncating the result again with width `maxLength + 3` leaves it as it is |
| ConsoleFormat.TruncateBlankText | src/Services/ConsoleApplication.cs:277-280 | for a text stored as a .NET string, the cell is empty exactly when the text is blank |
| ConsoleFormat.TruncateBasicText | src/Services/ConsoleApplication.cs:282-287 | a non-blank text below U+10000 is kept whole when it has at most `maxLength` characters, and otherwise becomes its first `maxLength` characters and `...` |
| ConsoleFormat.TruncateCountsCodeUnits | src/Services/ConsoleApplication.cs:282-287 | a text of characters above U+FFFF counts two code units per character: it is cut to `maxLength + 3` code units whenever `maxLength` is below twice its character count |
| ConsoleFormat.TruncateSplitsPair | src/Services/ConsoleApplication.cs:287 | for such a text and an odd width `2j + 1`, the cut splits the surrogate pair of character `j`: a lone high surrogate stands just before `...` |
| Utf16.EncodeChar | src/Services/ConsoleApplication.cs:282 | a character below U+10000 is one code unit equal to it; above, a high and a low surrogate that together give the character back |
| Utf16.Encode | src/Services/ConsoleApplication.cs:282 | a .NET string has between one and two code units per character |
| Utf16.BlankOfEncode | src/Services/ConsoleApplication.cs:277 | `IsNullOrWhiteSpace` on the code units agrees with blankness of the text they hold |
| Utf16.EncodeBasic | src/Services/ConsoleApplication.cs:282 | a text below U+10000 has one code unit per character, each equal to the character |
| Utf16.EncodeAstral | src/Services/ConsoleApplication.cs:282 | a text above U+FFFF has two code units per character, all surrogates |
| Utf16.AstralHighAt | src/Services/ConsoleApplication.cs:287 | in such a text, character `j` starts at code unit `2j` with a high surrogate |
| ConsoleFormat.GetTemperatureUnitSymbol | src/Services/ConsoleApplication.cs:290-298 | `°C` exactly for trimmed lower-case `metric`, `°F` exactly for `imperial`, `K` for everything else |
| ConsoleFormat.UnitSymbolSpellings | src/Services/ConsoleApplication.cs:290-298 | case and surrounding white space do not change the symbol, and `standard` maps to `K` |
| ConsoleFormat.UnitSymbolOfNormalized | src/Services/ConsoleApplication.cs:290-298 | the symbol for normalised units equals the symbol for the recognised spelling the user typed, and the fallback's symbol otherwise |

## Left out

- The HTTP exchange, HTML parsing (HtmlAgilityPack and its XPath queries), `HtmlEntity.DeEntitize`, `Uri.TryCreate` and `Uri.ToString`, and `JsonSerializer.Deserialize` are foreign libraries. They are parameters of the model. A page is its title, first heading and `<a href>` anchors in document order. A JSON body is a `Decoding`.
- A `null` anchor list from `SelectNodes` is the empty anchor sequence. The two give the same result.
- Time and concurrency are left out: the timer, the task machinery and `DateTime.UtcNow`. The deadline is the number of seconds the request was armed with. The exchange reports which exception ended it. The clock readings are parameters.
- Logging (`IAppLogger`) is left out, assuming it never throws. `AppLogger.Write` appends to a file with no `try` around it (`AppLogger.cs:47`), so it can throw. If `_logger.Info` threw after a successful scrape (`ScrapingService.cs:80`), the generic `catch` would turn the success into the "Ошибка обработки HTML-страницы" failure, and the document would keep the title, heading and links already filled in. If `_logger.Info` threw after a weather record was built (`OpenWeatherMapService.cs:107`), the result would be the unknown-error failure with no record. If `_logger.Error` threw inside a `catch` clause, the exception would escape `ScrapeAsync` or `FetchAsync`. None of these is modelled: `Scraping.Scrape` and `Weather.Fetch` promise their results only under this assumption.
- The HTML parser is assumed not to throw. If `LoadHtml` or an XPath query in `FillDocumentFromHtml` threw, the generic `catch` would report the "Ошибка обработки HTML-страницы" failure with a partly filled document. That case is not modelled.
- `Scraping.Exchange`: the body read after a 2xx status may end in any failure, including a timeout or a network error. With the default buffered `GetAsync`, those come from `GetAsync` itself, and a body read can only fail in decoding. The model over-approximates here; every promise it makes still holds for the runs the runtime can produce. The same applies to `Weather.Respond`.
- Exceptions the JSON deserializer throws other than `JsonException` are not modelled.
- `double` temperatures and wind speeds are carried unchanged as their 64-bit patterns. No floating-point arithmetic happens in the core.
- Strings are sequences of Unicode scalar values, except in `ConsoleFormat.Truncate`. That function works on UTF-16 code units, as .NET counts and cuts them, and `Utf16.Encode` relates the two views. Every white-space character lies below U+10000, so trimming and blankness agree between the views (`Utf16.BlankOfEncode`). .NET strings may also hold unpaired surrogates, which a sequence of scalar values cannot hold. Apart from `ConsoleFormat.Truncate`, whose input may be any sequence of code units, text with unpaired surrogates is not modelled.
- `Text.Lower`: folds only ASCII letters. `ToLowerInvariant` and `StringComparer.OrdinalIgnoreCase` also fold other letters, so targets that differ only in non-ASCII case count as distinct in the model.
- `Weather.NormalizeUnits`: the same ASCII-only folding applies. A spelling whose letters only become ASCII under invariant lower-casing (e.g. with U+0130) is not recognised.
- `ConsoleFormat.GetTemperatureUnitSymbol`: the same ASCII-only folding applies.
- `Numbers.ParseInt32`: reads with the invariant culture. The current culture's sign symbols are not modelled.
- `ConsoleFormat.Truncate`: requires `maxLength >= 0`. The range operator throws for a negative length, and every caller passes a positive constant.
- Building the request URL assumes that enumerating a freshly built `Dictionary` follows insertion order. This holds for the .NET implementation when nothing was removed.
- Database ids (`ObjectId`, `int Id`) and the repositories, `AppDbContext`, `StoragePathHelper`, `AppLogger`, `Program` and the console menu loop are outside the modelled core.
