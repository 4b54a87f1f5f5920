/**
 * handlers/cinecalidad.js: each grid card's title text is split on a
 * final `(dddd)`, `/^(.*)\s*\((\d{4})\)$/`, and kept whole when it has none.
 */
module Cinecalidad {
  import opened Wrappers
  import opened JsString
  import opened SiteHandlers

  /** `canHandle(url)` */
  function CanHandle(url: string): (b: bool)
    ensures b <==> exists i :: OccursAt(url, "cinecalidad.rs", i)
  {
    Contains(url, "cinecalidad.rs")
  }

  /** `getLanguage()` */
  const LANGUAGE: string := "es-ES"

  /** The `title` and `alt` attributes of a card's image (`""` when absent). */
  datatype Img = Img(title: string, alt: string)

  /** A card: the text of its `.in_title` element and its image, each if present. */
  datatype Card = Card(inTitle: Option<string>, img: Option<Img>)

  /** `titleRaw`: the trimmed `.in_title` text, else `img.title || img.alt || ""`. */
  function RawTitle(card: Card): string {
    match card.inTitle
    case Some(text) => Trim(text)
    case None =>
      match card.img
      case Some(img) => if img.title != "" then img.title else img.alt
      case None => ""
  }

  /**
   * The regular expression matches with `match[1] == raw[..l]`: a final
   * `(dddd)`, `.*` covering `raw[..l]` (no line terminator), and `\s*`
   * covering the rest up to the `(`.
   */
  predicate MatchesWith(raw: string, l: nat) {
    && |raw| >= 6 && ParenYearAt(raw, |raw| - 6) && l <= |raw| - 6
    && (forall k :: 0 <= k < l ==> !IsLineTerminator(raw[k]))
    && (forall k :: l <= k < |raw| - 6 ==> IsSpace(raw[k]))
  }

  /** `titleRaw.match(/^(.*)\s*\((\d{4})\)$/)` as `(match[1], match[2])`. */
  function SplitTrailingYear(raw: string): (r: Option<(string, string)>)
    ensures r.Some? ==> |raw| >= 6 && IsFourDigits(r.value.1) && r.value.1 == raw[|raw| - 5..|raw| - 1]
  {
    if |raw| >= 6 && ParenYearAt(raw, |raw| - 6) then
      var n := |raw| - 6;
      var l := LineEnd(raw, 0);
      if l >= n then Some((raw[..n], raw[n + 1..n + 5]))
      else if forall k :: l <= k < n ==> IsSpace(raw[k]) then Some((raw[..l], raw[n + 1..n + 5]))
      else None
    else None
  }

  /**
   * The split is the regular expression's: it succeeds exactly when some
   * `match[1]` fits, and then `match[1]` is the longest that fits, as the
   * greedy `.*` makes it.
   */
  lemma SplitIsGreedyMatch(raw: string)
    ensures SplitTrailingYear(raw).Some? <==> exists l: nat :: MatchesWith(raw, l)
    ensures SplitTrailingYear(raw).Some? ==>
              var g := SplitTrailingYear(raw).value.0;
              g == raw[..|g|] && MatchesWith(raw, |g|) && forall l: nat :: MatchesWith(raw, l) ==> l <= |g|
  {
    if |raw| >= 6 && ParenYearAt(raw, |raw| - 6) {
      var n := |raw| - 6;
      var l := LineEnd(raw, 0);
      if l >= n {
        assert MatchesWith(raw, n);
      } else if forall k :: l <= k < n ==> IsSpace(raw[k]) {
        assert MatchesWith(raw, l);
        forall l': nat | MatchesWith(raw, l') ensures l' <= l {
          assert IsLineTerminator(raw[l]);
        }
      } else {
        var k :| l <= k < n && !IsSpace(raw[k]);
        forall l': nat ensures !MatchesWith(raw, l') {
          if l' <= l {
            assert !IsSpace(raw[k]);
          } else {
            assert IsLineTerminator(raw[l]);
          }
        }
      }
    }
  }

  /** The title taken is the trimmed text before the final `(dddd)`. */
  lemma SplitTitleIsTextBeforeYear(raw: string)
    requires SplitTrailingYear(raw).Some?
    ensures Trim(SplitTrailingYear(raw).value.0) == Trim(raw[..|raw| - 6])
  {
    var n := |raw| - 6;
    var l := LineEnd(raw, 0);
    if l < n {
      assert raw[..n] == raw[..l] + raw[l..n];
      TrimSpaces(raw[..l], raw[l..n]);
    }
  }

  /** The entry one card gives, if any. */
  function CardEntry(card: Card, i: nat): Option<Movie> {
    var raw := RawTitle(card);
    if raw == "" then None
    else
      match SplitTrailingYear(raw)
      case Some((title, year)) => Some(Movie(CardNode(i), Trim(title), year))
      case None => Some(Movie(CardNode(i), raw, ""))
  }

  /** `getMovies()` over the cards of the page, in document order. */
  method GetMovies(cards: seq<Card>) returns (movies: seq<Movie>)
    ensures movies == Collect(cards, CardEntry)
  {
    movies := [];
    for i := 0 to |cards|
      invariant movies == Collect(cards[..i], CardEntry)
    {
      CollectStep(cards, i, CardEntry);
      var entry := CardEntry(cards[i], i);
      if entry.Some? {
        movies := movies + [entry.value];
      }
    }
    assert cards[..|cards|] == cards;
  }

  // ---------------------------------------------------------------------
  // Properties
  // ---------------------------------------------------------------------

  /**
   * A card gives an entry exactly when its title text is not empty; the
   * entry is the split when the text ends in `(dddd)` as the expression
   * requires, and the whole text with no year otherwise.
   */
  lemma CardEntryCases(card: Card, i: nat)
    ensures CardEntry(card, i).Some? <==> RawTitle(card) != ""
    ensures RawTitle(card) != "" && SplitTrailingYear(RawTitle(card)).Some? ==>
              var raw := RawTitle(card);
              CardEntry(card, i) == Some(Movie(CardNode(i), Trim(raw[..|raw| - 6]), raw[|raw| - 5..|raw| - 1]))
    ensures RawTitle(card) != "" && SplitTrailingYear(RawTitle(card)).None? ==>
              CardEntry(card, i) == Some(Movie(CardNode(i), RawTitle(card), ""))
  {
    var raw := RawTitle(card);
    if raw != "" && SplitTrailingYear(raw).Some? {
      SplitTitleIsTextBeforeYear(raw);
    }
  }

  /** One entry per card with a title, in card order, each with no year or a four-digit one. */
  lemma GetMoviesShape(cards: seq<Card>)
    ensures var movies := Collect(cards, CardEntry);
            && |movies| == Hits(cards, CardEntry)
            && (forall a, b :: 0 <= a < b < |movies| ==> CardOf(movies[a]) < CardOf(movies[b]))
            && forall k :: 0 <= k < |movies| ==> YearShaped(movies[k])
  {
    CollectCount(cards, CardEntry);
    CollectInCardOrder(cards, CardEntry);
    CollectAll(cards, CardEntry, YearShaped);
  }
}
