/**
 * handlers/megapeliculasrip.js: each card's heading link goes through
 * `MovieParser.parse` with bracket contents removed, and the entry points
 * at the card's poster when it has one.
 */
module MegaPeliculasRip {
  import opened Wrappers
  import opened JsString
  import opened SiteHandlers
  import opened MovieParser
  import opened MovieParserProps

  const MATCH_URL: string := "megapeliculasrip.net"

  /** `canHandle(url)` */
  function CanHandle(url: string): (b: bool)
    ensures b <==> exists i :: OccursAt(url, MATCH_URL, i)
  {
    Contains(url, MATCH_URL)
  }

  /** The heading link `h2 a`: its text and its `title` attribute (`""` when absent). */
  datatype Anchor = Anchor(text: string, title: string)

  /** A card: its heading link, if any, and whether it holds a `.poster`. */
  datatype Card = Card(anchor: Option<Anchor>, hasPoster: bool)

  const BracketOptions := ParseOptions(true)

  /** The entry one card gives, if any. */
  function CardEntry(card: Card, i: nat): (r: Option<Movie>)
    ensures r.Some? ==> CardOf(r.value) == i && r.value.title != "" && Tidy(r.value.title)
    ensures r.Some? ==> r.value.year == "" || IsYear(r.value.year)
  {
    match card.anchor
    case None => None
    case Some(a) =>
      var raw := if a.text != "" then a.text else a.title;
      if raw == "" then None
      else
        var parsed := Normalize(raw, BracketOptions);
        if parsed.title == "" then None
        else Some(Movie(if card.hasPoster then PosterNode(i) else CardNode(i), parsed.title, parsed.year.GetOr("")))
  }

  /** `getMovies()` over the cards of the page, in document order. */
  method GetMovies(cards: seq<Card>) returns (movies: seq<Movie>)
    ensures movies == Collect(cards, CardEntry)
  {
    movies := [];
    for i := 0 to |cards|
      invariant movies == Collect(cards[..i], CardEntry)
    {
      CollectStep(cards, i, CardEntry);
      var card := cards[i];
      if card.anchor.None? {
        continue;
      }
      var rawText := if card.anchor.value.text != "" then card.anchor.value.text else card.anchor.value.title;
      if rawText == "" {
        continue;
      }
      var parsed := Parse(rawText, BracketOptions);
      var element := if card.hasPoster then PosterNode(i) else CardNode(i);
      if parsed.title != "" {
        movies := movies + [Movie(element, parsed.title, if parsed.year.Some? then parsed.year.value else "")];
      }
    }
    assert cards[..|cards|] == cards;
  }

  // ---------------------------------------------------------------------
  // Properties
  // ---------------------------------------------------------------------

  /** The entry points at the poster exactly when the card has one. */
  lemma EntryTarget(card: Card, i: nat)
    requires CardEntry(card, i).Some?
    ensures CardEntry(card, i).value.element == (if card.hasPoster then PosterNode(i) else CardNode(i))
  {
  }

  /**
   * A year in the entry is four digits that stand in the link text once
   * its bracketed parts are blanked out, and it does not come from between
   * `[` and `]` unless a line break stands there.
   */
  lemma EntryYear(card: Card, i: nat)
    requires CardEntry(card, i).Some? && CardEntry(card, i).value.year != ""
    ensures var a := card.anchor.value;
            var raw := if a.text != "" then a.text else a.title;
            var year := CardEntry(card, i).value.year;
            && Normalize(raw, BracketOptions).year == Some(year)
            && IsYear(year)
            && Contains(StripBrackets(raw), year)
  {
    var a := card.anchor.value;
    var raw := if a.text != "" then a.text else a.title;
    YearComesFromInput(raw, BracketOptions);
  }

  predicate WellFormed(m: Movie) {
    m.title != "" && Tidy(m.title) && (m.year == "" || IsYear(m.year))
  }

  /** One entry per titled card, in card order, each with a tidy title and a missing year or one of the form 19dd or 20dd. */
  lemma GetMoviesShape(cards: seq<Card>)
    ensures var movies := Collect(cards, CardEntry);
            && |movies| == Hits(cards, CardEntry)
            && (forall a, b :: 0 <= a < b < |movies| ==> CardOf(movies[a]) < CardOf(movies[b]))
            && forall k :: 0 <= k < |movies| ==> WellFormed(movies[k])
  {
    CollectCount(cards, CardEntry);
    CollectInCardOrder(cards, CardEntry);
    CollectAll(cards, CardEntry, WellFormed);
  }
}
