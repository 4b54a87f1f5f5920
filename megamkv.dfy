/**
 * handlers/megamkv.js: each card's anchor title is cut at its first
 * `(dddd)`, `/^(.*?)\s*\((\d{4})\)/`, and a card without one is skipped.
 */
module MegaMkv {
  import opened Wrappers
  import opened JsString
  import opened SiteHandlers

  /** `canHandle(url)` */
  function CanHandle(url: string): (b: bool)
    ensures b <==> exists i :: OccursAt(url, "mega-mkv.com", i)
  {
    Contains(url, "mega-mkv.com")
  }

  /** `getLanguage()` */
  const LANGUAGE: string := "es-ES"

  /** A card: the `title` attribute of its first anchor (`""` when absent), if it has an anchor. */
  datatype Card = Card(anchorTitle: Option<string>)

  /**
   * The regular expression matches with `match[1] == raw[..l]`: `.*?`
   * covering `raw[..l]` (no line terminator), then white space up to some
   * `j`, and `(dddd)` at `j`.
   */
  predicate MatchesWith(raw: string, l: nat) {
    && l <= |raw|
    && (forall k :: 0 <= k < l ==> !IsLineTerminator(raw[k]))
    && exists j :: l <= j <= |raw| && (forall k :: l <= k < j ==> IsSpace(raw[k])) && ParenYearAt(raw, j)
  }

  /** The lazy `.*?`: the shortest `match[1]` from `l` on that lets the rest match. */
  function LazyFrom(raw: string, l: nat): (r: Option<nat>)
    requires l <= |raw|
    ensures r.Some? ==> l <= r.value <= |raw| && ParenYearAt(raw, SkipSpaces(raw, r.value))
    decreases |raw| - l
  {
    if ParenYearAt(raw, SkipSpaces(raw, l)) then Some(l)
    else if l < |raw| && !IsLineTerminator(raw[l]) then LazyFrom(raw, l + 1)
    else None
  }

  /** `titleRaw.match(/^(.*?)\s*\((\d{4})\)/)`: the length of `match[1]`, if it matches. */
  function LazySplit(raw: string): Option<nat> {
    LazyFrom(raw, 0)
  }

  /** At a given `match[1]`, the white space before the `(` is all of the run. */
  lemma MatchesWithAt(raw: string, l: nat)
    requires l <= |raw| && forall k :: 0 <= k < l ==> !IsLineTerminator(raw[k])
    ensures MatchesWith(raw, l) <==> ParenYearAt(raw, SkipSpaces(raw, l))
  {
    var j := SkipSpaces(raw, l);
    if MatchesWith(raw, l) {
      var j' :| l <= j' <= |raw| && (forall k :: l <= k < j' ==> IsSpace(raw[k])) && ParenYearAt(raw, j');
      assert !IsSpace(raw[j']);
      SkipSpacesTo(raw, l, j');
    }
  }

  /** The lazy scan from `l` on finds the shortest `match[1]` of length at least `l`, or there is none. */
  lemma {:induction false} LazyFromIsShortest(raw: string, l: nat)
    requires l <= |raw| && forall k :: 0 <= k < l ==> !IsLineTerminator(raw[k])
    ensures LazyFrom(raw, l).Some? ==>
              MatchesWith(raw, LazyFrom(raw, l).value) &&
              forall l': nat :: l <= l' < LazyFrom(raw, l).value ==> !MatchesWith(raw, l')
    ensures LazyFrom(raw, l).None? ==> forall l': nat :: l <= l' ==> !MatchesWith(raw, l')
    decreases |raw| - l
  {
    MatchesWithAt(raw, l);
    if !ParenYearAt(raw, SkipSpaces(raw, l)) {
      if l < |raw| && !IsLineTerminator(raw[l]) {
        LazyFromIsShortest(raw, l + 1);
      } else {
        forall l': nat | l <= l' ensures !MatchesWith(raw, l') {
          if l' > l && l < |raw| {
            assert IsLineTerminator(raw[l]);
          }
        }
      }
    }
  }

  /** The split is the regular expression's: the shortest `match[1]` that fits, and none when none fits. */
  lemma LazySplitIsShortestMatch(raw: string)
    ensures LazySplit(raw).Some? ==>
              MatchesWith(raw, LazySplit(raw).value) &&
              forall l': nat :: l' < LazySplit(raw).value ==> !MatchesWith(raw, l')
    ensures LazySplit(raw).None? <==> forall l: nat :: !MatchesWith(raw, l)
  {
    LazyFromIsShortest(raw, 0);
  }

  /** `(dddd)` at `j` and nowhere before. */
  predicate FirstParenYear(raw: string, j: nat) {
    ParenYearAt(raw, j) && forall p: nat :: p < j ==> !ParenYearAt(raw, p)
  }

  lemma FirstParenYearUnique(raw: string, j: nat, j': nat)
    requires FirstParenYear(raw, j) && FirstParenYear(raw, j')
    ensures j == j'
  {
  }

  /** The `(dddd)` the split stops at is the first one in the text. */
  lemma LazySplitFindsFirstYear(raw: string)
    requires LazySplit(raw).Some?
    ensures FirstParenYear(raw, SkipSpaces(raw, LazySplit(raw).value))
  {
    var l := LazySplit(raw).value;
    var j := SkipSpaces(raw, l);
    LazySplitIsShortestMatch(raw);
    forall p: nat | p < j ensures !ParenYearAt(raw, p) {
      if ParenYearAt(raw, p) && p < l {
        SkipSpacesTo(raw, p, p);
        assert MatchesWith(raw, p);
      }
    }
  }

  /** `[match[1].trim(), match[2]]`, if the regular expression matches. */
  function TitleAndYear(raw: string): (r: Option<(string, string)>)
    ensures r.Some? ==> IsFourDigits(r.value.1)
  {
    match LazySplit(raw)
    case None => None
    case Some(l) => Some((Trim(raw[..l]), ParenYear(raw, SkipSpaces(raw, l))))
  }

  /** The entry one card gives, if any. */
  function CardEntry(card: Card, i: nat): (r: Option<Movie>)
    ensures r.Some? ==> r.value.element == CardNode(i) && IsFourDigits(r.value.year)
  {
    match card.anchorTitle
    case None => None
    case Some(raw) =>
      if raw == "" then None
      else
        match TitleAndYear(raw)
        case None => None
        case Some((title, year)) => Some(Movie(CardNode(i), title, year))
  }

  /** `getMovies()` over the cards of the page, in document order. */
  method GetMovies(cards: seq<Card>) returns (movies: seq<Movie>)
    ensures movies == Collect(cards, CardEntry)
  {
    movies := [];
    for i := 0 to |cards|
      invariant movies == Collect(cards[..i], CardEntry)
    {
      CollectStep(cards, i, CardEntry);
      var entry := CardEntry(cards[i], i);
      if entry.Some? {
        movies := movies + [entry.value];
      }
    }
    assert cards[..|cards|] == cards;
  }

  // ---------------------------------------------------------------------
  // Properties
  // ---------------------------------------------------------------------

  /** The title is the trimmed text before the first `(dddd)`, and the year is that one's. */
  lemma TitleAndYearAtFirstYear(raw: string, j: nat)
    requires TitleAndYear(raw).Some? && FirstParenYear(raw, j)
    ensures TitleAndYear(raw) == Some((Trim(raw[..j]), raw[j + 1..j + 5]))
  {
    var l := LazySplit(raw).value;
    var j' := SkipSpaces(raw, l);
    assert TitleAndYear(raw) == Some((Trim(raw[..l]), ParenYear(raw, j')));
    LazySplitFindsFirstYear(raw);
    FirstParenYearUnique(raw, j, j');
    TrimSpaceRun(raw, l, j);
  }

  /**
   * `[title, year]` exists exactly when the regular expression matches,
   * and then the text has a first `(dddd)`.
   */
  lemma TitleAndYearWhenMatched(raw: string)
    ensures TitleAndYear(raw).Some? <==> exists l: nat :: MatchesWith(raw, l)
    ensures TitleAndYear(raw).Some? ==> FirstParenYear(raw, SkipSpaces(raw, LazySplit(raw).value))
  {
    LazySplitIsShortestMatch(raw);
    if TitleAndYear(raw).Some? {
      LazySplitFindsFirstYear(raw);
    }
  }

  /** With no line break and no `(` before a `(dddd)` at `n`, that `(dddd)` is the first, and `.*?` reaches it. */
  lemma PlainTitleSplits(raw: string, n: nat)
    requires ParenYearAt(raw, n)
    requires forall k :: 0 <= k < n ==> raw[k] != '(' && !IsLineTerminator(raw[k])
    ensures FirstParenYear(raw, n) && TitleAndYear(raw).Some?
  {
    assert SkipSpaces(raw, n) == n;
    MatchesWithAt(raw, n);
    LazySplitIsShortestMatch(raw);
  }

  /** A title with no line break and no `(` before a `(dddd)`: everything after the year is ignored. */
  lemma PlainTitleThenYear(raw: string, n: nat, i: nat)
    requires ParenYearAt(raw, n)
    requires forall k :: 0 <= k < n ==> raw[k] != '(' && !IsLineTerminator(raw[k])
    ensures CardEntry(Card(Some(raw)), i) == Some(Movie(CardNode(i), Trim(raw[..n]), raw[n + 1..n + 5]))
  {
    PlainTitleSplits(raw, n);
    TitleAndYearAtFirstYear(raw, n);
  }

  /** `"Anaconda (2025) HD 1080p y 720p Latino Castellano"` gives `"Anaconda"`, `"2025"`. */
  lemma AnacondaExample(i: nat)
    ensures CardEntry(Card(Some("Anaconda " + "(2025)" + " HD 1080p y 720p Latino Castellano")), i)
            == Some(Movie(CardNode(i), "Anaconda", "2025"))
  {
    var raw := "Anaconda " + "(2025)" + " HD 1080p y 720p Latino Castellano";
    AnacondaLayout();
    PlainTitleThenYear(raw, 9, i);
    AnacondaTrimmed();
  }

  lemma AnacondaLayout()
    ensures var raw := "Anaconda " + "(2025)" + " HD 1080p y 720p Latino Castellano";
            && ParenYearAt(raw, 9)
            && (forall k :: 0 <= k < 9 ==> raw[k] != '(' && !IsLineTerminator(raw[k]))
            && raw[..9] == "Anaconda " && raw[10..14] == "2025"
  {
    var w, y := "Anaconda ", "(2025)";
    var raw := w + y + " HD 1080p y 720p Latino Castellano";
    assert forall k :: 0 <= k < |w| ==> raw[k] == w[k];
    assert forall k :: 0 <= k < |y| ==> raw[|w| + k] == y[k];
    assert raw[..9] == w;
  }

  lemma AnacondaTrimmed()
    ensures Trim("Anaconda ") == "Anaconda"
  {
    assert "Anaconda " == "Anaconda" + " ";
    TrimTrailingSpace("Anaconda");
  }

  /** One entry per card that has a year, in card order, and every year is four digits. */
  lemma GetMoviesShape(cards: seq<Card>)
    ensures var movies := Collect(cards, CardEntry);
            && |movies| == Hits(cards, CardEntry)
            && (forall a, b :: 0 <= a < b < |movies| ==> CardOf(movies[a]) < CardOf(movies[b]))
            && forall k :: 0 <= k < |movies| ==> IsFourDigits(movies[k].year)
  {
    CollectCount(cards, CardEntry);
    CollectInCardOrder(cards, CardEntry);
    CollectAll(cards, CardEntry, HasFourDigitYear);
  }

  predicate HasFourDigitYear(m: Movie) {
    IsFourDigits(m.year)
  }
}
