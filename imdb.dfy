/**
 * handlers/imdb.js: the title page's entry for the rating badge, and the
 * two rewrites the handler makes to the page: the release year appended
 * to a film's title and the age appended to a person's name.
 */
module Imdb {
  import opened Wrappers
  import opened JsString
  import opened SiteHandlers
  import MovieParser

  const MATCH_URL: string := "imdb.com"

  /** `canHandle(url)` */
  function CanHandle(url: string): (b: bool)
    ensures b <==> exists i :: OccursAt(url, MATCH_URL, i)
  {
    Contains(url, MATCH_URL)
  }

  /** `isMoviePage()`, given `window.location.pathname`. */
  predicate IsMoviePage(pathname: string) {
    Contains(pathname, "/title/")
  }

  // ---------------------------------------------------------------------
  // The regular expressions
  // ---------------------------------------------------------------------

  /** The first index at or after `i` where `\d{4}` matches. */
  function FindFourDigits(s: string, i: nat): (p: Option<nat>)
    requires i <= |s|
    ensures p.Some? ==> i <= p.value && FourDigitsAt(s, p.value)
    decreases |s| - i
  {
    if FourDigitsAt(s, i) then Some(i)
    else if i < |s| then FindFourDigits(s, i + 1)
    else None
  }

  /** The scan finds the leftmost match, and a failed scan means there is none. */
  lemma {:induction false} FindFourDigitsLeftmost(s: string, i: nat)
    requires i <= |s|
    ensures FindFourDigits(s, i).Some? ==> forall q :: i <= q < FindFourDigits(s, i).value ==> !FourDigitsAt(s, q)
    ensures FindFourDigits(s, i).None? ==> forall q :: i <= q ==> !FourDigitsAt(s, q)
    decreases |s| - i
  {
    if !FourDigitsAt(s, i) && i < |s| {
      FindFourDigitsLeftmost(s, i + 1);
    }
  }

  /** `text.match(/(\d{4})/)[1]`: the first four consecutive digits, if any. */
  function FirstFourDigits(s: string): (y: Option<string>)
    ensures y.Some? ==> IsFourDigits(y.value)
  {
    match FindFourDigits(s, 0)
    case Some(p) => Some(s[p..p + 4])
    case None => None
  }

  /** The first index at or after `i` holding a digit. */
  function FindDigit(s: string, i: nat): (p: Option<nat>)
    requires i <= |s|
    ensures p.Some? ==> i <= p.value < |s| && IsDigit(s[p.value])
    ensures p.Some? ==> forall q :: i <= q < p.value ==> !IsDigit(s[q])
    ensures p.None? ==> forall q :: i <= q < |s| ==> !IsDigit(s[q])
    decreases |s| - i
  {
    if i == |s| then None
    else if IsDigit(s[i]) then Some(i)
    else FindDigit(s, i + 1)
  }

  /** `text.match(/(\d+)/)[1]`: the first run of digits, taken whole, if any. */
  function FirstDigitRun(s: string): (r: Option<string>)
    ensures r.Some? ==> r.value != [] && forall k :: 0 <= k < |r.value| ==> IsDigit(r.value[k])
    ensures r.Some? <==> exists k :: 0 <= k < |s| && IsDigit(s[k])
    ensures r.Some? ==> FindDigit(s, 0).Some? && var p := FindDigit(s, 0).value;
                        p + |r.value| <= |s| && r.value == s[p..p + |r.value|]
                        && (p + |r.value| == |s| || !IsDigit(s[p + |r.value|]))
  {
    match FindDigit(s, 0)
    case Some(p) => Some(s[p..MovieParser.DigitsEnd(s, p)])
    case None => None
  }

  /** `/\(\d{4}\)$/`: the text ends in a year in parentheses. */
  predicate EndsWithParenYear(s: string) {
    |s| >= 6 && ParenYearAt(s, |s| - 6)
  }

  /** `title.replace(/\s\(\d{4}\)$/, '')`: one white-space character and a parenthesised year at the very end go. */
  function StripYearSuffix(t: string): (r: string)
    ensures r == t || (|t| == |r| + 7 && r == t[..|r|] && IsSpace(t[|r|]) && EndsWithParenYear(t))
  {
    if |t| >= 7 && IsSpace(t[|t| - 7]) && ParenYearAt(t, |t| - 6) then t[..|t| - 7] else t
  }

  /** `text.replace(/:/g, '')` */
  function RemoveColons(s: string): (r: string)
    ensures |r| <= |s| && forall k :: 0 <= k < |r| ==> r[k] != ':'
  {
    if s == [] then []
    else (if s[0] == ':' then [] else [s[0]]) + RemoveColons(s[1..])
  }

  lemma {:induction false} RemoveColonsConcat(a: string, b: string)
    ensures RemoveColons(a + b) == RemoveColons(a) + RemoveColons(b)
    decreases |a|
  {
    if a != [] {
      var head := if a[0] == ':' then [] else [a[0]];
      assert (a + b)[0] == a[0];
      assert (a + b)[1..] == a[1..] + b;
      RemoveColonsConcat(a[1..], b);
      calc {
        RemoveColons(a + b);
        head + RemoveColons(a[1..] + b);
        head + (RemoveColons(a[1..]) + RemoveColons(b));
        (head + RemoveColons(a[1..])) + RemoveColons(b);
      }
    } else {
      assert a + b == b;
    }
  }

  lemma {:induction false} RemoveColonsKeeps(s: string)
    requires forall k :: 0 <= k < |s| ==> s[k] != ':'
    ensures RemoveColons(s) == s
    decreases |s|
  {
    if s != [] {
      RemoveColonsKeeps(s[1..]);
    }
  }

  // ---------------------------------------------------------------------
  // getMovies
  // ---------------------------------------------------------------------

  /** The year for the entry: the first four digits of the year element's text, else `""`. */
  function EntryYear(yearText: Option<string>): (y: string)
    ensures y == "" || IsFourDigits(y)
    ensures y != "" <==> yearText.Some? && exists p: nat :: FourDigitsAt(yearText.value, p)
    ensures y != "" ==> exists p: nat :: FourDigitsAt(yearText.value, p) && y == yearText.value[p..p + 4]
                                           && forall q :: 0 <= q < p ==> !FourDigitsAt(yearText.value, q)
  {
    match yearText
    case None => ""
    case Some(t) =>
      FindFourDigitsLeftmost(t, 0);
      if FirstFourDigits(t).Some? then FirstFourDigits(t).value else ""
  }

  /**
   * `getMovies()`, given the page's path, the text of the first title
   * element the selectors find and that of the first year element (`None`
   * for an element that is not there).
   */
  function GetMovies(pathname: string, titleText: Option<string>, yearText: Option<string>): (movies: seq<Movie>)
    ensures |movies| <= 1
    ensures |movies| == 1 <==> IsMoviePage(pathname) && titleText.Some?
    ensures |movies| == 1 ==> movies[0].element == TitleNode && YearShaped(movies[0])
    ensures |movies| == 1 ==> movies[0].title == StripYearSuffix(Trim(titleText.value)) && movies[0].year == EntryYear(yearText)
  {
    if !IsMoviePage(pathname) || titleText.None? then []
    else [Movie(TitleNode, StripYearSuffix(Trim(titleText.value)), EntryYear(yearText))]
  }

  // ---------------------------------------------------------------------
  // calculateAge
  // ---------------------------------------------------------------------

  /** A calendar date as `getFullYear()`, `getMonth()` and `getDate()` give it. */
  datatype Date = Date(year: int, month: int, day: int)

  /** `a` falls strictly before `b`, comparing year, then month, then day. */
  predicate Before(a: Date, b: Date) {
    a.year < b.year || (a.year == b.year && (a.month < b.month || (a.month == b.month && a.day < b.day)))
  }

  /** The `n`-th anniversary of `birth`. */
  function Anniversary(birth: Date, n: int): Date {
    Date(birth.year + n, birth.month, birth.day)
  }

  /**
   * The age `calculateAge` returns: the number of whole years lived, so
   * that the last anniversary is not after today and the next one is. It
   * is the difference of the years or one less.
   */
  function Age(birth: Date, today: Date): (age: int)
    ensures !Before(today, Anniversary(birth, age)) && Before(today, Anniversary(birth, age + 1))
    ensures age == today.year - birth.year || age == today.year - birth.year - 1
  {
    var m := today.month - birth.month;
    today.year - birth.year - (if m < 0 || (m == 0 && today.day < birth.day) then 1 else 0)
  }

  /** `calculateAge(birthDateString)`, with the parsed birth date and today's date given. */
  method CalculateAge(birth: Date, today: Date) returns (age: int)
    ensures age == Age(birth, today)
  {
    age := today.year - birth.year;
    var m := today.month - birth.month;
    if m < 0 || (m == 0 && today.day < birth.day) {
      age := age - 1;
    }
  }

  /** Only one number has that property: the age is determined by the anniversaries. */
  lemma AgeIsUnique(birth: Date, today: Date, n: int)
    requires !Before(today, Anniversary(birth, n)) && Before(today, Anniversary(birth, n + 1))
    ensures n == Age(birth, today)
  {
  }

  // ---------------------------------------------------------------------
  // The page rewrites
  // ---------------------------------------------------------------------

  /** A page element whose `textContent` the handler reads and overwrites. */
  class TextNode {
    var text: string

    constructor(text: string)
      ensures this.text == text
    {
      this.text := text;
    }
  }

  /** What a rewrite returns, and the text it writes, if it writes one. */
  datatype Rewrite = Rewrite(done: bool, write: Option<string>)

  /** `${originalTitle} (${year})` */
  function TitleWithYear(originalTitle: string, year: string): string {
    originalTitle + " (" + year + ")"
  }

  /** What `updateMovieTitle` does to a title whose text is `text`. */
  function TitleRewrite(text: string, yearText: Option<string>): (r: Rewrite)
    ensures r.write.Some? ==> r.done
  {
    var originalTitle := RemoveColons(Trim(text));
    if EndsWithParenYear(originalTitle) then Rewrite(true, None)
    else if yearText.None? then Rewrite(false, None)
    else
      match FirstFourDigits(yearText.value)
      case None => Rewrite(false, None)
      case Some(year) => Rewrite(true, Some(TitleWithYear(originalTitle, year)))
  }

  /** `updateMovieTitle()`, given the title element (`null` when none is found) and the year element's text. */
  method UpdateMovieTitle(titleElement: TextNode?, yearText: Option<string>) returns (done: bool)
    modifies titleElement
    ensures titleElement == null ==> !done
    ensures titleElement != null ==>
              var r := TitleRewrite(old(titleElement.text), yearText);
              done == r.done && titleElement.text == r.write.GetOr(old(titleElement.text))
  {
    if titleElement == null {
      return false;
    }
    var originalTitle := RemoveColons(Trim(titleElement.text));
    if EndsWithParenYear(originalTitle) {
      return true;
    }
    if yearText.None? {
      return false;
    }
    var year := FirstFourDigits(yearText.value);
    if year.None? {
      return false;
    }
    titleElement.text := originalTitle + " (" + year.value + ")";
    return true;
  }

  const TOMBSTONE: string := "\U{F0}\U{178}\U{AA}\U{A6}"

  /** `${name} (<tombstone> ${digits} years)` */
  function DeathSuffixed(name: string, digits: string): string {
    name + " (" + TOMBSTONE + " " + digits + " years)"
  }

  /** `${name} (${age} years)` */
  function AgeSuffixed(name: string, age: int): string {
    name + " (" + IntToString(age) + " years)"
  }

  /**
   * What `updatePersonAge` does to a name whose text is `text`, given the
   * death-age element's text, the birth-date element's text, the date the
   * browser parses from the trimmed birth text (`None` for an invalid date)
   * and today's date.
   */
  function AgeRewrite(text: string, deathText: Option<string>, birthText: Option<string>,
                      birth: Option<Date>, today: Date): (r: Rewrite)
    ensures r.write.Some? ==> r.done
  {
    if Contains(text, "years)") then Rewrite(true, None)
    else if deathText.Some? && FirstDigitRun(deathText.value).Some? then
      Rewrite(true, Some(DeathSuffixed(text, FirstDigitRun(deathText.value).value)))
    else if birthText.None? || FirstFourDigits(Trim(birthText.value)).None? || birth.None? then
      Rewrite(false, None)
    else
      Rewrite(true, Some(AgeSuffixed(text, Age(birth.value, today))))
  }

  /** `updatePersonAge()`, given the name element (`null` when none is found) and the rest as for `AgeRewrite`. */
  method UpdatePersonAge(nameElement: TextNode?, deathText: Option<string>, birthText: Option<string>,
                         birth: Option<Date>, today: Date) returns (done: bool)
    modifies nameElement
    ensures nameElement == null ==> !done
    ensures nameElement != null ==>
              var r := AgeRewrite(old(nameElement.text), deathText, birthText, birth, today);
              done == r.done && nameElement.text == r.write.GetOr(old(nameElement.text))
  {
    if nameElement == null {
      return false;
    }
    if Contains(nameElement.text, "years)") {
      return true;
    }
    if deathText.Some? {
      var digits := FirstDigitRun(deathText.value);
      if digits.Some? {
        nameElement.text := nameElement.text + " (" + TOMBSTONE + " " + digits.value + " years)";
        return true;
      }
    }
    if birthText.None? {
      return false;
    }
    var birthDateText := Trim(birthText.value);
    if FirstFourDigits(birthDateText).None? {
      return false;
    }
    if birth.None? {
      return false;
    }
    var age := CalculateAge(birth.value, today);
    nameElement.text := nameElement.text + " (" + IntToString(age) + " years)";
    return true;
  }

  // ---------------------------------------------------------------------
  // Properties of the rewrites
  // ---------------------------------------------------------------------

  /** The appended text trims to itself, or to just `(year)` when nothing but white space stands before it. */
  lemma TrimTitleWithYear(originalTitle: string, year: string)
    requires IsFourDigits(year)
    ensures var w := "(" + year + ")";
            Trim(TitleWithYear(originalTitle, year)) ==
              if TrimStart(originalTitle) != "" then TrimStart(originalTitle) + " " + w else w
  {
    var w := "(" + year + ")";
    assert TitleWithYear(originalTitle, year) == originalTitle + (" " + w);
    TrimStartConcat(originalTitle, " " + w);
    if TrimStart(originalTitle) != "" {
      var v := TrimStart(originalTitle) + (" " + w);
      assert v == TrimStart(originalTitle) + " " + w && v[|v| - 1] == ')';
      TrimEndKeeps(v);
    } else {
      TrimStartConcat(" ", w);
      assert SkipSpaces(" ", 0) == 1;
      TrimStartKeeps(w);
      TrimEndKeeps(w);
    }
  }

  /** A parenthesised year has no colon in it. */
  lemma ParenYearHasNoColon(year: string)
    requires IsFourDigits(year)
    ensures RemoveColons("(" + year + ")") == "(" + year + ")"
  {
    var w := "(" + year + ")";
    assert forall k :: 0 <= k < 4 ==> w[k + 1] == year[k];
    RemoveColonsKeeps(w);
  }

  /** Text ending in `(year)` matches `/\(\d{4}\)$/`. */
  lemma EndsWithParenYearAppended(p: string, w: string, year: string)
    requires IsFourDigits(year) && w == "(" + year + ")"
    ensures EndsWithParenYear(p + w)
  {
    var r := p + w;
    assert forall k :: 0 <= k < 6 ==> r[|p| + k] == w[k];
    assert forall k :: 0 <= k < 4 ==> w[k + 1] == year[k];
  }

  /** Colons removed from `p + w`, where `w` is a parenthesised year, still end in `w`. */
  lemma RemoveColonsBeforeYear(p: string, w: string, year: string)
    requires IsFourDigits(year) && w == "(" + year + ")"
    ensures EndsWithParenYear(RemoveColons(p + w))
  {
    RemoveColonsConcat(p, w);
    ParenYearHasNoColon(year);
    EndsWithParenYearAppended(RemoveColons(p), w, year);
  }

  /** After its text has been rewritten, the title ends in a parenthesised year once more, colons or not. */
  lemma TitleWithYearEndsWithYear(originalTitle: string, year: string)
    requires IsFourDigits(year)
    ensures EndsWithParenYear(RemoveColons(Trim(TitleWithYear(originalTitle, year))))
  {
    var w := "(" + year + ")";
    TrimTitleWithYear(originalTitle, year);
    if TrimStart(originalTitle) != "" {
      RemoveColonsBeforeYear(TrimStart(originalTitle) + " ", w, year);
    } else {
      assert w == [] + w;
      RemoveColonsBeforeYear([], w, year);
    }
  }

  /** `updateMovieTitle` rewrites a title at most once: on the text it wrote it returns true and writes nothing. */
  lemma TitleRewriteIdempotent(text: string, yearText: Option<string>, laterYearText: Option<string>)
    requires TitleRewrite(text, yearText).write.Some?
    ensures TitleRewrite(TitleRewrite(text, yearText).write.value, laterYearText) == Rewrite(true, None)
  {
    TitleWithYearEndsWithYear(RemoveColons(Trim(text)), FirstFourDigits(yearText.value).value);
  }

  /**
   * `getMovies` undoes `updateMovieTitle`: on the rewritten title it
   * reports the title without the appended year (and without leading white
   * space), and the year it reports is the one that was appended.
   */
  lemma GetMoviesUndoesTitleRewrite(pathname: string, text: string, yearText: Option<string>)
    requires IsMoviePage(pathname)
    requires TitleRewrite(text, yearText).write.Some?
    requires TrimStart(RemoveColons(Trim(text))) != ""
    ensures var originalTitle := RemoveColons(Trim(text));
            && TitleRewrite(text, yearText).write == Some(TitleWithYear(originalTitle, EntryYear(yearText)))
            && GetMovies(pathname, TitleRewrite(text, yearText).write, yearText)
               == [Movie(TitleNode, TrimStart(originalTitle), EntryYear(yearText))]
  {
    var originalTitle := RemoveColons(Trim(text));
    assert TitleRewrite(text, yearText).write == Some(TitleWithYear(originalTitle, EntryYear(yearText)));
    StripTitleWithYear(originalTitle, EntryYear(yearText));
  }

  /** Removing the year suffix from the trimmed, rewritten title leaves the title as it was, less leading white space. */
  lemma StripTitleWithYear(originalTitle: string, year: string)
    requires IsFourDigits(year) && TrimStart(originalTitle) != ""
    ensures StripYearSuffix(Trim(TitleWithYear(originalTitle, year))) == TrimStart(originalTitle)
  {
    TrimTitleWithYear(originalTitle, year);
    StripAppendedYear(TrimStart(originalTitle), "(" + year + ")", year);
  }

  /** `/\s\(\d{4}\)$/` removes exactly a space and a parenthesised year appended to `u`. */
  lemma StripAppendedYear(u: string, w: string, year: string)
    requires IsFourDigits(year) && w == "(" + year + ")"
    ensures StripYearSuffix(u + " " + w) == u
  {
    var t := u + " " + w;
    assert forall k :: 0 <= k < 6 ==> t[|u| + 1 + k] == w[k];
    assert forall k :: 0 <= k < 4 ==> w[k + 1] == year[k];
    assert t[|u|] == ' ';
    assert t[..|u|] == u;
  }

  /** The suffix `updatePersonAge` writes ends in `years)`. */
  lemma SuffixedContainsYears(name: string, middle: string)
    ensures Contains(name + " (" + middle + " years)", "years)")
  {
    var t := name + " (" + middle + " years)";
    assert t[|t| - 6..] == "years)";
    assert OccursAt(t, "years)", |t| - 6);
  }

  /** `updatePersonAge` rewrites a name at most once: on the text it wrote it returns true and writes nothing. */
  lemma AgeRewriteIdempotent(text: string, deathText: Option<string>, birthText: Option<string>, birth: Option<Date>, today: Date,
                             deathText': Option<string>, birthText': Option<string>, birth': Option<Date>, today': Date)
    requires AgeRewrite(text, deathText, birthText, birth, today).write.Some?
    ensures AgeRewrite(AgeRewrite(text, deathText, birthText, birth, today).write.value, deathText', birthText', birth', today')
            == Rewrite(true, None)
  {
    if deathText.Some? && FirstDigitRun(deathText.value).Some? {
      assert DeathSuffixed(text, FirstDigitRun(deathText.value).value)
             == text + " (" + (TOMBSTONE + " " + FirstDigitRun(deathText.value).value) + " years)";
      SuffixedContainsYears(text, TOMBSTONE + " " + FirstDigitRun(deathText.value).value);
    } else {
      SuffixedContainsYears(text, IntToString(Age(birth.value, today)));
    }
  }

  /** The age `updatePersonAge` writes reads back, digit by digit, as the computed age, with a sign when it is negative. */
  lemma AgeReadsBack(age: int)
    ensures age >= 0 ==> DigitsValue(IntToString(age)) == age
    ensures age < 0 ==> IntToString(age)[0] == '-' && DigitsValue(IntToString(age)[1..]) == -age
  {
    if age >= 0 {
      assert IntToString(age) == NatToString(age);
      NatToStringRoundTrip(age);
    } else {
      var digits := NatToString(-age);
      assert IntToString(age) == "-" + digits;
      assert ("-" + digits)[1..] == digits;
      NatToStringRoundTrip(-age);
    }
  }
}
