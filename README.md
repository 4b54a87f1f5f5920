# PopcornLens — a Dafny model of the title, cache and site-extraction core

PopcornLens is a browser extension that finds movie titles on streaming and
catalogue sites and fetches their TMDB ratings. This project models the part
of it that works on strings and state without touching a browser:

- **The title normaliser** (`MovieParser.parse`) turns a scraped text such as
  `Anaconda (2025) HD 1080p y 720p Latino Castellano` into a clean title and an
  optional year. The stages are:
  - optional `[...]` stripping;
  - a structured `(YYYY)` / `[YYYY]` year that cuts the text;
  - a loose-year fallback that does not cut the text;
  - removal of the 20 noise patterns;
  - separator and whitespace clean-up;
  - removal of a trailing year and of a trailing ` y`.

  The regular expressions are written out as scanning functions that follow
  JavaScript's semantics: leftmost match, `\s` as the trim set, `\b` over
  `[A-Za-z0-9_]`, and ASCII case folding for `i`.
- **The response cache** (`Cache`) is a class over a `map` store. It has:
  - the key builder, over the string's UTF-16 code units as JavaScript's
    `replace` sees them;
  - `get` with its seven-day expiry and clean-up of expired entries;
  - `set`;
  - `clear` of the `popcorn_cache_` keys.
- **The TMDB search decision** (`TMDB_API.search`) covers the guards, the
  language precedence, the request URL and the mapping of the response to a
  result.
- **The site handlers** cover cinecalidad, mega-mkv, pelishd4k,
  megapeliculasrip and IMDb. Each handler has:
  - `canHandle`;
  - `getMovies` over cards abstracted as records of optional strings;
  - the Spanish `getLanguage` constants.

  IMDb also has the age arithmetic and the in-place title and age rewrites.

The modules are:
- `JsString`: JavaScript string primitives such as trim, `\s`, `includes` and
  number formatting.
- `PopcornConfig`: the constants.
- `MovieParser`: the normaliser. Its properties are in `MovieParserProps`,
  `NoiseProps` and `MovieParserExamples`.
- `ResponseCache`.
- `Tmdb`.
- `SiteHandlers`: the entry type shared by all handlers and the card-loop
  lemmas.
- One module per handler.

Each `getMovies` loop is a method proved equal to `SiteHandlers.Collect`, the
function that maps the cards to their entries. The lemmas about `Collect`
(count, order, membership) then carry over to every handler.

## Model

| member | source | states |
|---|---|---|
| MovieParser.Parse | utils/parser.js:37-97 | the method's stage-by-stage result equals the specification `Normalize` |
| MovieParser.Normalize | utils/parser.js:37-97 | an empty text gives title `""` and no year; any year is four digits starting 19 or 20; the title is tidy (no `.`/`_`/`-`, trimmed, no two adjacent spaces) |
| MovieParser.RemoveAllNoise | utils/parser.js:74-76 | the `forEach` over the noise list applies every pattern once, in list order |
| MovieParser.ExtractYear | utils/parser.js:51-71 | a structured year wins and cuts the text before it, or at index 0 is replaced by one space; otherwise the loose year is recorded and the text is kept whole |
| MovieParser.FindStructuredLeftmost | utils/parser.js:51 | the structured-year search finds the leftmost match, and reports none only when there is none |
| MovieParser.FindLoose | utils/parser.js:67 | the loose-year search finds the leftmost four-digit 19xx/20xx not bordered by digits |
| MovieParser.BracketStop | utils/parser.js:45 | the lazy `.*?` of a bracket span stops at the first `]` or line terminator |
| MovieParser.StripBrackets | utils/parser.js:44-46 | bracket stripping never lengthens the text |
| MovieParserProps.StripBracketsCopies | utils/parser.js:45 | text without `[` is copied unchanged, and stripping goes on after it |
| MovieParserProps.StripBracketsSpan | utils/parser.js:45 | a `[` closed by the next `]` on its line becomes, together with that `]` and everything between, exactly one space |
| MovieParserProps.StripBracketsUnclosed | utils/parser.js:45 | a `[` with no `]` before the end of its line (or of the text) is kept |
| MovieParser.SeparatorsToSpaces | utils/parser.js:79 | every `.`, `_`, `-` becomes a space and every other character is kept |
| MovieParser.CollapseSpaces | utils/parser.js:80 | no two adjacent whitespace characters remain, and no separator is introduced |
| MovieParserProps.CollapseSpacesCopies | utils/parser.js:80 | a stretch without white space is copied unchanged, in order |
| MovieParserProps.CollapseSpacesRun | utils/parser.js:80 | each maximal run of white space becomes exactly one plain space |
| MovieParserProps.CollapseSpacesCharacters | utils/parser.js:80 | the output holds only plain spaces and characters of the input that are not white space |
| MovieParser.TrimKeepsTidy | utils/parser.js:80 | trimming a collapsed, separator-free text gives a tidy title |
| MovieParser.DropTrailingYear | utils/parser.js:84-87 | a trailing copy of the year is cut only at a word boundary, and then exactly the year and the single white-space character before it, if any, are removed; otherwise the text is unchanged; the title stays tidy |
| MovieParser.DropTrailingConjunction | utils/parser.js:91 | a final whitespace + `y`/`Y` is removed and nothing else is |
| MovieParser.CleanTitle | utils/parser.js:73-91 | the clean-up stages always produce a tidy title |
| MovieParserProps.RemoveNoiseCharacters | utils/parser.js:74-76 | noise removal writes only spaces and characters of its input |
| MovieParserProps.SpacingCharacters | utils/parser.js:79-80 | separator replacement and the collapse write only plain spaces and input characters that are neither white space nor separators |
| MovieParserProps.CleanTitleCharacters | utils/parser.js:73-91 | every character of the title is a plain space or a character of the text that is neither white space nor a separator |
| MovieParserProps.StructuredAtComplete | utils/parser.js:51 | an opener, optional spaces, a 19xx/20xx year, optional spaces and a closer form a structured match, with `(`/`[` and `)`/`]` mixed freely |
| MovieParserProps.StructuredAtSound | utils/parser.js:51 | every structured match has exactly that shape |
| MovieParserProps.ExtractFirstStructured | utils/parser.js:53-62 | with the first structured match at n, the text is cut to `s[..n]`, or at 0 the match is replaced by one space |
| MovieParserProps.YearComesFromInput | utils/parser.js:51-71 | a reported year occurs in the text the year search saw |
| MovieParserProps.StructuredYearCutsText | utils/parser.js:51-58 | a structured year after a bracket-free prefix is recorded, and only the prefix is cleaned into the title |
| MovieParserProps.StructuredYearAtStart | utils/parser.js:59-62 | a structured year at index 0 is recorded, and the rest of the text survives into the title |
| MovieParserProps.LooseYearKeepsText | utils/parser.js:63-71 | without a structured year the first loose year is recorded and the whole text goes on to the clean-up |
| MovieParserProps.StripBracketsNoSpan | utils/parser.js:44-46 | after stripping, no `[` is followed by a `]` on the same line |
| MovieParserProps.BracketedYearNeedsLineBreak | utils/parser.js:44-51 | after stripping, a structured year in `[...]` is only found across a line break |
| MovieParserProps.CleanTitleOfPlainText | utils/parser.js:73-91 | text with no noise, no separators and no stray whitespace comes out trimmed and otherwise unchanged |
| MovieParserProps.CleanTitleOfWord | utils/parser.js:73-91 | a noise-free alphanumeric word followed by a space cleans to the word itself |
| NoiseProps.ReplaceSkips | utils/parser.js:75 | a global replace copies every stretch where the pattern does not match |
| NoiseProps.ReplaceKeepsCharacters | utils/parser.js:75 | a global replace writes only spaces and characters of the text it scans |
| NoiseProps.ReplaceAtMatch | utils/parser.js:75 | the leftmost match becomes one space; the text before it is copied and the scan resumes at the match's end |
| NoiseProps.ReplaceOneMatch | utils/parser.js:75 | a text with a single match has exactly that span replaced by one space |
| NoiseProps.ReplaceNoMatch | utils/parser.js:75 | a text without a match is left as it is |
| NoiseProps.RemoveNoiseQuiet | utils/parser.js:74-76 | patterns that find no match in the text left by the earlier ones leave it unchanged |
| NoiseProps.ResolutionComplete | utils/parser.js:8 | three or four digits and a `p` (either case) between two word boundaries are matched, up to the `p` |
| NoiseProps.WordFormComplete | utils/parser.js:9-26 | a spelling that stands at a boundary, ignoring case, and is followed by one is matched, with the first such alternative |
| NoiseProps.SpacedComplete | utils/parser.js:10-27 | a head, optional white space and the tail followed by a boundary are matched, with the first head that fits |
| NoiseProps.NoMatchWithoutLead | utils/parser.js:7-28 | no noise pattern matches where no resolution, two-letter beginning or `hd` opens |
| NoiseProps.WordMissesFirst | utils/parser.js:9-26 | an alternation of words cannot match at a letter none of its spellings starts with |
| NoiseProps.SpacedMissesFirst | utils/parser.js:10-27 | a head-and-tail pattern cannot match at a letter, not white space, that none of its spellings starts with |
| NoiseProps.MissesFirst | utils/parser.js:7-28 | no noise pattern matches at a non-space character that none of its spellings starts with |
| NoiseProps.NoisePatternsCovered | utils/parser.js:7-28 | every noise pattern opens at a word boundary with a resolution, one of a fixed set of two-letter beginnings, or `hd` after optional spaces |
| NoiseProps.NoiseFreeKept | utils/parser.js:74-76 | text with no noise opening anywhere passes the noise stage unchanged |
| MovieParserExamples.AnacondaExample | utils/parser.js:51-58 | `Anaconda (2025) HD 1080p y 720p Latino Castellano` parses to `Anaconda`, `2025` |
| MovieParserExamples.MatrixResolution | utils/parser.js:8 | in `Matrix.1999.1080p.BluRay.x264` the resolution pattern matches `1080p` and nothing else |
| MovieParserExamples.MatrixBluRay | utils/parser.js:12 | the `BluRay` pattern then matches `BluRay` and nothing else |
| MovieParserExamples.MatrixCodec | utils/parser.js:19 | the `x26[45]` pattern then matches `x264` and nothing else |
| MovieParserExamples.MatrixNoise | utils/parser.js:74-76 | the twenty patterns in order leave `Matrix.1999. . . ` |
| MovieParserExamples.MatrixSpacing | utils/parser.js:79-80 | the separators and the collapse give `Matrix 1999 ` |
| MovieParserExamples.MatrixDropYear | utils/parser.js:84-87 | the trailing `1999`, preceded by a boundary, is removed with the space before it |
| MovieParserExamples.MatrixCleanTitle | utils/parser.js:73-91 | the clean-up of `Matrix.1999.1080p.BluRay.x264` with year `1999` gives `Matrix` |
| MovieParserExamples.MatrixYear | utils/parser.js:51-71 | the text has no structured year, and `1999` is its first loose year |
| MovieParserExamples.MatrixExample | utils/parser.js:37-97 | `Matrix.1999.1080p.BluRay.x264` parses to `Matrix`, `1999` |
| ResponseCache.CodeUnits | utils/cache.js:14 | a character outside the Basic Multilingual Plane counts as two code units, neither of them alphanumeric |
| ResponseCache.CodeUnitsOfBmp | utils/cache.js:14 | a title inside the Basic Multilingual Plane has one code unit per character |
| ResponseCache.SafeTitle | utils/cache.js:14 | each code unit outside `[A-Za-z0-9]` becomes exactly one `_` (runs are not collapsed), every letter and digit is kept lower-cased, and the length in code units is kept |
| ResponseCache.AstralTitleExample | utils/cache.js:14 | `a` followed by an emoji gives `a__`, the same title part as `a__` and not `a_` |
| ResponseCache.Key | utils/cache.js:13-17 | every key starts with `popcorn_cache_` |
| ResponseCache.SafeTitleCollides | utils/cache.js:14 | two titles share a safe title iff they have as many code units and agree unit by unit up to ASCII case, with all non-alphanumerics treated as one |
| ResponseCache.CodeUnitsIgnoreCase | utils/cache.js:14 | titles equal up to ASCII case have code units the key cannot tell apart |
| ResponseCache.KeyIgnoresCase | utils/cache.js:14-15 | titles and languages that differ only in ASCII case give the same key |
| ResponseCache.KeyExample | utils/cache.js:13-17 | `("The Matrix","1999","en-US")` and `("the matrix","1999","EN-us")` give the same key |
| ResponseCache.Cache.Get | utils/cache.js:40-64 | when disabled, gives null and keeps the store; otherwise gives the fresh entry's data, and removes the key only when its entry has expired |
| ResponseCache.Cache.Set | utils/cache.js:69-84 | when disabled, keeps the store; otherwise writes `{timestamp: now, data}` at the key |
| ResponseCache.Cache.Clear | utils/cache.js:89-103 | removes exactly the prefixed keys and returns how many there were |
| ResponseCache.GetFresh | utils/cache.js:47-61 | `get` gives the data iff an entry exists with age at most the TTL, and null otherwise |
| ResponseCache.GetRemovesOnlyExpired | utils/cache.js:55-58 | only the looked-up key can disappear, and only when it has expired; other entries are unchanged |
| ResponseCache.GetRepeatable | utils/cache.js:40-64 | a second `get` at the same time answers as the first |
| ResponseCache.SetThenGet | utils/cache.js:55-84 | after `set`, `get` gives the data up to and including age TTL; past it, `get` gives null and removes the entry |
| ResponseCache.SetOverrides | utils/cache.js:69-84 | a second `set` on a key replaces the first |
| ResponseCache.SetKeepsOthers | utils/cache.js:69-84 | `set` touches no other key |
| ResponseCache.ClearRemovesExactlyCacheKeys | utils/cache.js:92-98 | after `clear`, exactly the non-prefixed keys remain, with their entries unchanged |
| ResponseCache.ClearCount | utils/cache.js:92-99 | the count returned plus the keys kept equals the keys before |
| ResponseCache.ClearWithoutCacheKeys | utils/cache.js:98-99 | with no prefixed keys, `clear` changes nothing |
| ResponseCache.ClearForgetsEverything | utils/cache.js:89-103 | after `clear`, every `get` misses |
| Tmdb.Language | utils/tmdb.js:39 | the settings language wins, then the detected language, then `en-US` |
| Tmdb.YearQuery | utils/tmdb.js:43 | the year parameter is present iff the year is non-empty, and ends with the year |
| Tmdb.RequestUrl | utils/tmdb.js:44 | the URL starts with the base, key and query, and ends with the language parameter |
| Tmdb.Search | utils/tmdb.js:27-58 | a request is made iff there is a title and an API key; a result only comes from a request |
| Tmdb.SearchGuards | utils/tmdb.js:28-36 | an empty title gives null before the settings are read; a missing key gives null after reading them, with no request |
| Tmdb.SearchRequest | utils/tmdb.js:39-44 | the request URL is base + `/search/movie?api_key=` + key + `&query=` + encoded title + year part + `&language=` + language |
| Tmdb.SearchOutcome | utils/tmdb.js:46-57 | an ok response's body is returned unchanged; a non-ok status or a thrown error gives null |
| Tmdb.YearPartPlacement | utils/tmdb.js:43-44 | the year part sits between the query and the language, and is absent without a year |
| SiteHandlers.CollectStep | handlers/cinecalidad.js:25-57 | each card adds its own entry, if any, at the end |
| SiteHandlers.CollectCount | handlers/cinecalidad.js:22-59 | `getMovies` yields one entry per card that produces one |
| SiteHandlers.CollectMembers | handlers/cinecalidad.js:22-59 | an entry is in the result iff some card produced it |
| SiteHandlers.CollectInCardOrder | handlers/cinecalidad.js:22-59 | entries come out in card order |
| SiteHandlers.CollectAll | handlers/cinecalidad.js:22-59 | a property of every card's entry holds for the whole result |
| Cinecalidad.CanHandle | handlers/cinecalidad.js:13-15 | true iff the URL contains `cinecalidad.rs` |
| Cinecalidad.SplitTrailingYear | handlers/cinecalidad.js:41 | a split year is the four digits inside the final `(dddd)` |
| Cinecalidad.SplitIsGreedyMatch | handlers/cinecalidad.js:41 | the split succeeds iff the end-anchored greedy regex matches, and its title is the longest possible group 1 |
| Cinecalidad.SplitTitleIsTextBeforeYear | handlers/cinecalidad.js:41-46 | the trimmed title is the trimmed text before the final `(dddd)` |
| Cinecalidad.GetMovies | handlers/cinecalidad.js:21-60 | the loop's result is the per-card entries, in card order |
| Cinecalidad.CardEntryCases | handlers/cinecalidad.js:26-56 | a card yields an entry iff its raw text is non-empty; split title and year on a match, else the raw text and `""` |
| Cinecalidad.GetMoviesShape | handlers/cinecalidad.js:22-59 | one entry per card with text, in card order, each year `""` or four digits |
| MegaMkv.CanHandle | handlers/megamkv.js:13-15 | true iff the URL contains `mega-mkv.com` |
| MegaMkv.LazyFromIsShortest | handlers/megamkv.js:36 | the lazy scan stops at the shortest group 1 that lets the rest match |
| MegaMkv.LazySplitIsShortestMatch | handlers/megamkv.js:36 | the split is the regex's own lazy match, and there is none iff the regex does not match |
| MegaMkv.LazySplitFindsFirstYear | handlers/megamkv.js:36 | the year taken is the first `(dddd)` in the text |
| MegaMkv.TitleAndYear | handlers/megamkv.js:36-42 | any year found is four digits |
| MegaMkv.TitleAndYearAtFirstYear | handlers/megamkv.js:36-42 | the title is the trimmed text before the first `(dddd)` and the year is its digits |
| MegaMkv.TitleAndYearWhenMatched | handlers/megamkv.js:36-48 | a title and year are found iff the regex matches |
| MegaMkv.CardEntry | handlers/megamkv.js:27-48 | an entry is tied to its card and has a four-digit year |
| MegaMkv.GetMovies | handlers/megamkv.js:21-52 | the loop's result is the per-card entries, in card order |
| MegaMkv.PlainTitleThenYear | handlers/megamkv.js:31-43 | a text with a `(dddd)` and no earlier `(` or line break gives the trimmed text before it and those digits |
| MegaMkv.AnacondaExample | handlers/megamkv.js:36-43 | `Anaconda (2025) HD 1080p y 720p Latino Castellano` gives `Anaconda`, `2025` |
| MegaMkv.GetMoviesShape | handlers/megamkv.js:22-51 | one entry per matching card, in card order, each with a four-digit year |
| PelisHd4k.CanHandle | handlers/pelishd4k.js:7-11 | true iff the URL contains `pelishd4k.com` |
| PelisHd4k.CardEntry | handlers/pelishd4k.js:21-43 | an entry is tied to its card and has a non-empty tidy title |
| PelisHd4k.GetMovies | handlers/pelishd4k.js:13-47 | the loop's result is the per-card entries, in card order |
| PelisHd4k.RawTitleFallback | handlers/pelishd4k.js:21-29 | a non-empty title text wins; the raw text is empty iff both the title text and the image alt are; an empty raw text gives no entry |
| PelisHd4k.EntryYear | handlers/pelishd4k.js:32-35 | the parser's year wins and occurs in the raw text; otherwise the trimmed year badge, else `""` |
| PelisHd4k.GetMoviesShape | handlers/pelishd4k.js:14-46 | one entry per card with a parsed title, in card order, each title non-empty and tidy |
| MegaPeliculasRip.CanHandle | handlers/megapeliculasrip.js:7-11 | true iff the URL contains `megapeliculasrip.net` |
| MegaPeliculasRip.CardEntry | handlers/megapeliculasrip.js:18-36 | an entry is tied to its card, with a non-empty tidy title and a year that is `""` or 19xx/20xx |
| MegaPeliculasRip.GetMovies | handlers/megapeliculasrip.js:13-40 | the loop's result is the per-card entries, in card order |
| MegaPeliculasRip.EntryTarget | handlers/megapeliculasrip.js:28-32 | the entry points at the poster when there is one, else at the card |
| MegaPeliculasRip.EntryYear | handlers/megapeliculasrip.js:21-34 | a non-empty year is the bracket-stripping parser's year and occurs in the stripped text |
| MegaPeliculasRip.GetMoviesShape | handlers/megapeliculasrip.js:14-39 | one entry per card with a parsed title, in card order, each well formed |
| Imdb.CanHandle | handlers/imdb.js:29-31 | true iff the URL contains `imdb.com` |
| Imdb.FindFourDigitsLeftmost | handlers/imdb.js:101 | the `(\d{4})` search finds the leftmost four digits, and reports none only when there are none |
| Imdb.FindDigit | handlers/imdb.js:157 | the `(\d+)` search starts at the first digit |
| Imdb.FirstDigitRun | handlers/imdb.js:157 | a run is found iff the text holds a digit; it starts at the first digit, is taken whole (no digit follows it) and consists of digits only |
| Imdb.StripYearSuffix | handlers/imdb.js:96 | either nothing is removed, or exactly a whitespace plus a final `(dddd)` |
| Imdb.RemoveColons | handlers/imdb.js:182 | no `:` remains, and nothing is added |
| Imdb.RemoveColonsConcat | handlers/imdb.js:182 | removing colons distributes over concatenation |
| Imdb.EntryYear | handlers/imdb.js:99-103 | the year is non-empty iff there is a year element whose text holds four consecutive digits; it is then the leftmost such four digits of that text, else `""` |
| Imdb.GetMovies | handlers/imdb.js:84-110 | at most one entry; exactly one iff the path has `/title/` and a title element exists; it points at the title, its title is the trimmed text less a final white space + `(dddd)`, and its year is EntryYear of the year element's text |
| Imdb.Age | handlers/imdb.js:114-123 | the age is the number of completed birthdays: today is on or after the age-th anniversary and before the next; it is the year difference or one less |
| Imdb.CalculateAge | handlers/imdb.js:114-123 | the decrementing method computes `Age` |
| Imdb.AgeIsUnique | handlers/imdb.js:114-123 | only one age satisfies the anniversary bracket |
| Imdb.UpdateMovieTitle | handlers/imdb.js:178-210 | a missing element gives false; otherwise the result and the new text are as `TitleRewrite` decides, and the text is unchanged when nothing is written |
| Imdb.TitleRewrite | handlers/imdb.js:182-196 | a write always reports success |
| Imdb.TitleRewriteIdempotent | handlers/imdb.js:182-196 | rewriting an already rewritten title succeeds and writes nothing, whatever the year element says |
| Imdb.GetMoviesUndoesTitleRewrite | handlers/imdb.js:182-196 | the rewrite writes the colon-free original title plus the year, and `getMovies` (lines 94-103) reads back that original title and the same year |
| Imdb.StripTitleWithYear | handlers/imdb.js:96 | stripping the suffix of a rewritten title gives back the original |
| Imdb.TitleWithYearEndsWithYear | handlers/imdb.js:182-186 | a rewritten title passes the `(\d{4})$` guard |
| Imdb.UpdatePersonAge | handlers/imdb.js:148-176 | a missing element gives false; otherwise the result and the new text are as `AgeRewrite` decides, and the text is unchanged when nothing is written |
| Imdb.AgeRewrite | handlers/imdb.js:152-175 | a write always reports success |
| Imdb.AgeRewriteIdempotent | handlers/imdb.js:152-175 | a rewritten name contains `years)`, so a second run succeeds and writes nothing |
| Imdb.AgeReadsBack | handlers/imdb.js:174 | the age written reads back as the same number, with a minus sign when negative |
| JsString.Trim | utils/parser.js:80 | the result is the input with its leading run of white space and its trailing white space removed, and neither starts nor ends with white space |
| JsString.Contains | handlers/imdb.js:73 | `includes` is true iff the text occurs at some index |
| JsString.NatToStringRoundTrip | handlers/imdb.js:174 | the decimal rendering of a number reads back as the number and has no leading zero |

## Left out

- DOM access is not modelled. This covers `querySelector`, `findElement` and the selector lists. Each card or page is a record of optional strings. Which element is found, and text written into nodes other than the title, are not modelled.
- Storage is a map. `chrome.storage` callbacks and promises are not modelled, and `isEnabled`'s read of the settings is an `enabled` field of the cache.
- `Date.now()` is an integer parameter.
- `fetch`, `response.json()` and the TMDB service form one outcome parameter: ok with a body, a non-ok status, or a thrown error. `encodeURIComponent` is an uninterpreted function parameter, so its `URIError` on lone surrogates shows up only through the thrown outcome.
- `new Date(text)` parsing is not modelled. The birth date is an optional (year, month, day), with none for an unparsable text, which gives NaN in the source. Today's date is a parameter, so the time zone is not modelled.
- ResponseCache.Key: the language part is lowered on ASCII letters only. `toLowerCase` in the source also lowers other letters, so a language such as `ÉS` gives `és` there and `És` here. The title part is exact: `replace` has turned every non-ASCII code unit into `_` before `toLowerCase` runs. The `i` flag of the noise patterns folds ASCII letters only, as JavaScript does without the `u` flag.
- A Dafny `string` holds Unicode scalar values, so a title with an unpaired surrogate cannot be written. `CodeUnits` stands for each half of a surrogate pair as U+FFFD; like a surrogate, it is not alphanumeric.
- Logging is not modelled.
- `showNotification`, the click-to-copy handler, the cursor and tooltip styles, the clipboard, and `init`/`_run` with the `setInterval` retry loop are not modelled.
- `isPersonPage` is not modelled.
- `content.js` (handler selection and orchestration) and `options.js` (settings page) are not part of this model.
- Concurrent `get`/`set` on the same key is not modelled.
- The cache key replaces each non-alphanumeric character by its own `_`, as `utils/cache.js:14` does. Runs are not collapsed into one `_`.
- Noise removal runs before the separators become spaces, as the code orders it. So a noise word glued to a title by `_`, as in `Movie_1080p`, is not removed, because `_` is a word character for `\b`.
- MovieParser.StripBrackets: its own contract gives only the length bound. StripBracketsCopies, StripBracketsSpan and StripBracketsUnclosed state what it does to each `[` and to the text around it.
- MovieParser.CollapseSpaces: its own contract gives only the collapsed shape. CollapseSpacesCopies, CollapseSpacesRun and CollapseSpacesCharacters state that other characters are kept in order and each run becomes one space.
- MovieParser.CleanTitle: its own contract gives only tidiness, and no lemma fixes the title for every input. CleanTitleCharacters bounds what the title may contain. CleanTitleOfPlainText and CleanTitleOfWord fix it for text without noise, and MatrixCleanTitle for one text with noise.
- NoiseProps: completeness is proved pattern by pattern and match by match (ResolutionComplete, WordFormComplete, SpacedComplete, ReplaceAtMatch). No single lemma says that no noise word is left after all twenty patterns.
- Imdb.GetMoviesUndoesTitleRewrite requires a colon-free original title that is not blank. For a blank one the source writes ` (dddd)`, which trims to `(dddd)` with no leading whitespace, so `getMovies` keeps the suffix.
