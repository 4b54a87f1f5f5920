/**
 * handlers/pelishd4k.js: each grid card's title (or, failing that, its
 * image's `alt`) goes through `MovieParser.parse`; the card's own year
 * badge stands in when the parser finds no year.
 */
module PelisHd4k {
  import opened Wrappers
  import opened JsString
  import opened SiteHandlers
  import opened MovieParser
  import opened MovieParserProps

  const MATCH_URL: string := "pelishd4k.com"

  /** `canHandle(url)` */
  function CanHandle(url: string): (b: bool)
    ensures b <==> exists i :: OccursAt(url, MATCH_URL, i)
  {
    Contains(url, MATCH_URL)
  }

  /**
   * A card: the text of its `.Title` element, the text of its `.Qlty.Yr`
   * badge and the `alt` of its image (`""` when the attribute is absent),
   * each `None` when the element is missing.
   */
  datatype Card = Card(titleText: Option<string>, yearText: Option<string>, imgAlt: Option<string>)

  /** The title element's text, or the image's `alt` when that text is missing or empty. */
  function RawTitle(card: Card): string {
    var fromTitle := card.titleText.GetOr("");
    if fromTitle != "" then fromTitle else card.imgAlt.GetOr("")
  }

  /** `year || (yearEl ? yearEl.textContent.trim() : "")` */
  function FinalYear(parsed: Option<string>, card: Card): string {
    match parsed
    case Some(y) => y
    case None => if card.yearText.Some? then Trim(card.yearText.value) else ""
  }

  /** The entry one card gives, if any: a card whose parsed title is empty gives none. */
  function CardEntry(card: Card, i: nat): (r: Option<Movie>)
    ensures r.Some? ==> r.value.element == CardNode(i) && r.value.title != "" && Tidy(r.value.title)
  {
    var raw := RawTitle(card);
    if raw == "" then None
    else
      var parsed := Normalize(raw, DefaultOptions);
      if parsed.title == "" then None
      else Some(Movie(CardNode(i), parsed.title, FinalYear(parsed.year, card)))
  }

  /** `getMovies()` over the cards of the page, in document order. */
  method GetMovies(cards: seq<Card>) returns (movies: seq<Movie>)
    ensures movies == Collect(cards, CardEntry)
  {
    movies := [];
    for i := 0 to |cards|
      invariant movies == Collect(cards[..i], CardEntry)
    {
      CollectStep(cards, i, CardEntry);
      var card := cards[i];
      var rawTitle := if card.titleText.Some? then card.titleText.value else "";
      if rawTitle == "" && card.imgAlt.Some? {
        rawTitle := card.imgAlt.value;
      }
      if rawTitle != "" {
        var parsed := Parse(rawTitle, DefaultOptions);
        var finalYear := if parsed.year.Some? then parsed.year.value
                         else if card.yearText.Some? then Trim(card.yearText.value) else "";
        if parsed.title != "" {
          movies := movies + [Movie(CardNode(i), parsed.title, finalYear)];
        }
      }
    }
    assert cards[..|cards|] == cards;
  }

  // ---------------------------------------------------------------------
  // Properties
  // ---------------------------------------------------------------------

  /** The image's `alt` is read only when the title element is missing or empty; a card with neither is skipped. */
  lemma RawTitleFallback(card: Card, i: nat)
    ensures card.titleText.Some? && card.titleText.value != "" ==> RawTitle(card) == card.titleText.value
    ensures RawTitle(card) == "" <==>
              (card.titleText.None? || card.titleText.value == "") && (card.imgAlt.None? || card.imgAlt.value == "")
    ensures RawTitle(card) == "" ==> CardEntry(card, i).None?
  {
  }

  /**
   * The parser's year wins, and it is four digits written in the card's
   * title; the year badge's trimmed text is used only when the parser
   * finds none.
   */
  lemma EntryYear(card: Card, i: nat)
    requires CardEntry(card, i).Some?
    ensures var raw := RawTitle(card);
            var year := CardEntry(card, i).value.year;
            match Normalize(raw, DefaultOptions).year
            case Some(y) => year == y && IsYear(year) && Contains(raw, year)
            case None => year == (if card.yearText.Some? then Trim(card.yearText.value) else "")
  {
    YearComesFromInput(RawTitle(card), DefaultOptions);
  }

  predicate HasTitle(m: Movie) {
    m.title != "" && Tidy(m.title)
  }

  /** One entry per titled card, in card order, each with a non-empty, tidy title. */
  lemma GetMoviesShape(cards: seq<Card>)
    ensures var movies := Collect(cards, CardEntry);
            && |movies| == Hits(cards, CardEntry)
            && (forall a, b :: 0 <= a < b < |movies| ==> CardOf(movies[a]) < CardOf(movies[b]))
            && forall k :: 0 <= k < |movies| ==> HasTitle(movies[k])
  {
    CollectCount(cards, CardEntry);
    CollectInCardOrder(cards, CardEntry);
    CollectAll(cards, CardEntry, HasTitle);
  }
}
