/**
 * What the site handlers share: the entries `getMovies` returns, and the
 * `cards.forEach(card => { ... movies.push(...) })` shape of their scans,
 * written once as `Collect` over a per-card rule.
 */
module SiteHandlers {
  import opened Wrappers
  import opened JsString

  /** `\d{4}` at index `i`. */
  predicate FourDigitsAt(s: string, i: nat) {
    i + 4 <= |s| && IsDigit(s[i]) && IsDigit(s[i + 1]) && IsDigit(s[i + 2]) && IsDigit(s[i + 3])
  }

  /** Exactly four decimal digits. */
  predicate IsFourDigits(y: string) {
    |y| == 4 && FourDigitsAt(y, 0)
  }

  /** `\((\d{4})\)` at index `i`. */
  predicate ParenYearAt(s: string, i: nat) {
    i + 6 <= |s| && s[i] == '(' && FourDigitsAt(s, i + 1) && s[i + 5] == ')'
  }

  /** The four digits inside a `(dddd)` at `i`. */
  function ParenYear(s: string, i: nat): (y: string)
    requires ParenYearAt(s, i)
    ensures IsFourDigits(y) && y == s[i + 1..i + 5]
  {
    s[i + 1..i + 5]
  }

  /** The year of the entry is missing or four digits. */
  predicate YearShaped(m: Movie) {
    m.year == "" || IsFourDigits(m.year)
  }

  /** The element an entry points at: a card, the poster inside a card, or a page's title. */
  datatype Target = CardNode(index: nat) | PosterNode(index: nat) | TitleNode

  /** `{element, title, year}`; a missing year is `""`. */
  datatype Movie = Movie(element: Target, title: string, year: string)

  /** The position of the card an entry comes from (a page title counts as the first). */
  function CardOf(m: Movie): nat {
    match m.element
    case CardNode(i) => i
    case PosterNode(i) => i
    case TitleNode => 0
  }

  function OptionToSeq<T>(o: Option<T>): (r: seq<T>)
    ensures |r| <= 1 && (o.Some? <==> |r| == 1) && (o.Some? ==> r[0] == o.value)
  {
    if o.Some? then [o.value] else []
  }

  /** The entries pushed while scanning `cards` in order, card `i` contributing `entry(cards[i], i)` if any. */
  function Collect<C>(cards: seq<C>, entry: (C, nat) -> Option<Movie>): seq<Movie>
    decreases |cards|
  {
    if cards == [] then []
    else Collect(cards[..|cards| - 1], entry) + OptionToSeq(entry(cards[|cards| - 1], |cards| - 1))
  }

  /** Scanning one more card pushes that card's entry, if any. */
  lemma CollectStep<C>(cards: seq<C>, i: nat, entry: (C, nat) -> Option<Movie>)
    requires i < |cards|
    ensures Collect(cards[..i + 1], entry) == Collect(cards[..i], entry) + OptionToSeq(entry(cards[i], i))
  {
    assert cards[..i + 1][..i] == cards[..i];
  }

  /** The number of cards that give an entry. */
  function Hits<C>(cards: seq<C>, entry: (C, nat) -> Option<Movie>): (n: nat)
    ensures n <= |cards|
    decreases |cards|
  {
    if cards == [] then 0
    else Hits(cards[..|cards| - 1], entry) + (if entry(cards[|cards| - 1], |cards| - 1).Some? then 1 else 0)
  }

  /** One entry per card that gives one: no card is skipped, none counted twice. */
  lemma {:induction false} CollectCount<C>(cards: seq<C>, entry: (C, nat) -> Option<Movie>)
    ensures |Collect(cards, entry)| == Hits(cards, entry)
    decreases |cards|
  {
    if cards != [] {
      CollectCount(cards[..|cards| - 1], entry);
    }
  }

  /** Every entry is the entry of some card, and every card's entry is there. */
  lemma {:induction false} CollectMembers<C>(cards: seq<C>, entry: (C, nat) -> Option<Movie>)
    ensures forall m :: m in Collect(cards, entry) <==> exists i :: 0 <= i < |cards| && entry(cards[i], i) == Some(m)
    decreases |cards|
  {
    if cards != [] {
      var n := |cards| - 1;
      var front := cards[..n];
      CollectMembers(front, entry);
      forall m ensures m in Collect(cards, entry) <==> exists i :: 0 <= i < |cards| && entry(cards[i], i) == Some(m) {
        if m in Collect(front, entry) {
          var i :| 0 <= i < |front| && entry(front[i], i) == Some(m);
          assert cards[i] == front[i];
        }
        if exists i :: 0 <= i < |cards| && entry(cards[i], i) == Some(m) {
          var i :| 0 <= i < |cards| && entry(cards[i], i) == Some(m);
          if i < n {
            assert front[i] == cards[i];
          }
        }
      }
    }
  }

  /** An entry rule that tags each entry with its own card. */
  ghost predicate TagsOwnCard<C(!new)>(entry: (C, nat) -> Option<Movie>) {
    forall c, i :: entry(c, i).Some? ==> CardOf(entry(c, i).value) == i
  }

  /** When entries carry their card, they come out in card order, each card at most once. */
  lemma {:induction false} CollectInCardOrder<C(!new)>(cards: seq<C>, entry: (C, nat) -> Option<Movie>)
    requires TagsOwnCard(entry)
    ensures forall k :: 0 <= k < |Collect(cards, entry)| ==> CardOf(Collect(cards, entry)[k]) < |cards|
    ensures forall a, b :: 0 <= a < b < |Collect(cards, entry)| ==>
              CardOf(Collect(cards, entry)[a]) < CardOf(Collect(cards, entry)[b])
    decreases |cards|
  {
    if cards != [] {
      var n := |cards| - 1;
      var front := Collect(cards[..n], entry);
      CollectInCardOrder(cards[..n], entry);
      var e := entry(cards[n], n);
      assert e.Some? ==> CardOf(e.value) == n;
      var out := front + OptionToSeq(e);
      assert Collect(cards, entry) == out;
      assert forall k :: 0 <= k < |front| ==> out[k] == front[k];
      assert forall k :: 0 <= k < |front| ==> CardOf(front[k]) < n;
      forall k | 0 <= k < |out| ensures CardOf(out[k]) <= n {
        if k == |front| {
          assert out[k] == e.value;
        }
      }
      forall a, b | 0 <= a < b < |out| ensures CardOf(out[a]) < CardOf(out[b]) {
        if b == |front| {
          assert out[b] == e.value;
        }
      }
    }
  }

  /** A property every entry has is a property of the whole scan. */
  lemma {:induction false} CollectAll<C>(cards: seq<C>, entry: (C, nat) -> Option<Movie>, p: Movie -> bool)
    requires forall c, i :: entry(c, i).Some? ==> p(entry(c, i).value)
    ensures forall k :: 0 <= k < |Collect(cards, entry)| ==> p(Collect(cards, entry)[k])
    decreases |cards|
  {
    if cards != [] {
      CollectAll(cards[..|cards| - 1], entry, p);
    }
  }
}
