/**
 * `TMDB_API.search` of utils/tmdb.js: the decision whether to ask the
 * TMDB service, the request URL it builds, and how the answer is turned
 * into a result.
 *
 * The stored settings (`getConfig`) are the `config` parameter, the outcome
 * of `fetch` and `response.json()` for the request is the `outcome`
 * parameter, and `encodeURIComponent` is the `encode` parameter, about
 * which nothing is assumed. `SearchRun` records whether the settings were
 * read and which request, if any, was made, next to the result.
 */
module Tmdb {
  import opened Wrappers
  import opened JsString
  import opened PopcornConfig

  /** `{ apiKey, language }` as read from the synchronised settings (both default to `''`). */
  datatype TmdbConfig = TmdbConfig(apiKey: string, language: string)

  /** How the request ends: a thrown error (network or JSON), a non-ok status, or an ok response's parsed body. */
  datatype Outcome<J> = Thrown | NotOk(status: int) | Ok(body: J)

  /** One call of `search`: whether `getConfig` ran, the URL fetched (if any), and the resolved value (`null` is `None`). */
  datatype SearchRun<J> = SearchRun(configRead: bool, request: Option<string>, result: Option<J>)

  /** `config.language || detectedLang || 'en-US'` */
  function Language(configLanguage: string, detectedLang: string): (language: string)
    ensures language != ""
    ensures configLanguage != "" ==> language == configLanguage
    ensures configLanguage == "" && detectedLang != "" ==> language == detectedLang
    ensures configLanguage == "" && detectedLang == "" ==> language == "en-US"
  {
    if configLanguage != "" then configLanguage
    else if detectedLang != "" then detectedLang
    else "en-US"
  }

  /** `year ? '&primary_release_year=' + year : ''` */
  function YearQuery(year: string): (q: string)
    ensures q == "" <==> year == ""
    ensures year != "" ==> EndsWith(q, year)
  {
    if year == "" then "" else "&primary_release_year=" + year
  }

  /** The fixed text before the API key. */
  const SEARCH_PATH: string := "/search/movie?api_key="

  /** The URL of line 44: everything up to the optional year part. */
  function UrlHead(apiKey: string, query: string): string {
    API_BASE_URL + SEARCH_PATH + apiKey + "&query=" + query
  }

  /** The URL of line 44. */
  function RequestUrl(apiKey: string, query: string, year: string, language: string): (url: string)
    ensures StartsWith(url, UrlHead(apiKey, query))
    ensures EndsWith(url, "&language=" + language)
  {
    var head, tail := UrlHead(apiKey, query), "&language=" + language;
    var url := head + YearQuery(year) + tail;
    assert url[..|head|] == head;
    assert url[|url| - |tail|..] == tail;
    url
  }

  /** `search(title, year, detectedLang)` */
  function Search<J>(title: string, year: string, detectedLang: string, config: TmdbConfig,
                     encode: string -> string, outcome: Outcome<J>): (run: SearchRun<J>)
    // a request is made exactly when there is a title and an API key
    ensures run.request.Some? <==> title != "" && config.apiKey != ""
    // a result only ever comes from a made request
    ensures run.result.Some? ==> run.request.Some?
  {
    if title == "" then SearchRun(false, None, None)
    else if config.apiKey == "" then SearchRun(true, None, None)
    else
      var language := Language(config.language, detectedLang);
      var url := RequestUrl(config.apiKey, encode(title), year, language);
      match outcome
      case Ok(body) => SearchRun(true, Some(url), Some(body))
      case NotOk(_) => SearchRun(true, Some(url), None)
      case Thrown => SearchRun(true, Some(url), None)
  }

  // ---------------------------------------------------------------------
  // Properties
  // ---------------------------------------------------------------------

  /** An empty title gives `null` before the settings are read; a missing API key gives `null` without a request. */
  lemma SearchGuards<J>(title: string, year: string, detectedLang: string, config: TmdbConfig,
                        encode: string -> string, outcome: Outcome<J>)
    ensures title == "" ==> Search(title, year, detectedLang, config, encode, outcome) == SearchRun(false, None, None)
    ensures title != "" && config.apiKey == "" ==>
              Search(title, year, detectedLang, config, encode, outcome) == SearchRun(true, None, None)
  {
  }

  /**
   * A request carries the key, the encoded title, the year part when there
   * is a year, and the language chosen by precedence, in that order.
   */
  lemma SearchRequest<J>(title: string, year: string, detectedLang: string, config: TmdbConfig,
                         encode: string -> string, outcome: Outcome<J>)
    requires title != "" && config.apiKey != ""
    ensures var run := Search(title, year, detectedLang, config, encode, outcome);
            run.configRead && run.request == Some(
              API_BASE_URL + "/search/movie?api_key=" + config.apiKey + "&query=" + encode(title)
              + (if year == "" then "" else "&primary_release_year=" + year)
              + "&language=" + Language(config.language, detectedLang))
  {
    var head := UrlHead(config.apiKey, encode(title));
    var yq, tail := YearQuery(year), "&language=" + Language(config.language, detectedLang);
    assert head + yq + tail == head + yq + "&language=" + Language(config.language, detectedLang);
  }

  /** An ok response's body is returned as it is; a non-ok status or a thrown error gives `null`. */
  lemma SearchOutcome<J>(title: string, year: string, detectedLang: string, config: TmdbConfig,
                         encode: string -> string, outcome: Outcome<J>)
    requires title != "" && config.apiKey != ""
    ensures Search(title, year, detectedLang, config, encode, outcome).result ==
              if outcome.Ok? then Some(outcome.body) else None
  {
  }

  /** Without a year the URL is the year-free one; with a year, the year part sits between the query and the language. */
  lemma YearPartPlacement(apiKey: string, query: string, year: string, language: string)
    ensures var plain := RequestUrl(apiKey, query, "", language);
            var n := |UrlHead(apiKey, query)|;
            n <= |plain| &&
            RequestUrl(apiKey, query, year, language) == plain[..n] + YearQuery(year) + plain[n..]
  {
    var head, tail := UrlHead(apiKey, query), "&language=" + language;
    var plain := RequestUrl(apiKey, query, "", language);
    assert plain == head + tail;
    assert plain[..|head|] == head && plain[|head|..] == tail;
  }
}
