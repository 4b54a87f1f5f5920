/**
 * The title normaliser of utils/parser.js: a fixed-order pipeline that turns
 * a noisy scraped string into a `{title, year}` pair.
 *
 * Each regular expression of the script is written out below as a scanning
 * function over the string; `Normalize` composes the stages and `Parse`
 * runs them statement by statement, as the script does.
 */
module MovieParser {
  import opened Wrappers
  import opened JsString

  /** The options bag of `parse`; only `removeBracketContents` is read. */
  datatype ParseOptions = ParseOptions(removeBracketContents: bool)

  const DefaultOptions := ParseOptions(false)

  /** `{title, year}`, where a missing year is `null`. */
  datatype Parsed = Parsed(title: string, year: Option<string>)

  // ---------------------------------------------------------------------
  // Years
  // ---------------------------------------------------------------------

  /** `(?:19|20)\d{2}` starting at index `i`. */
  predicate YearAt(s: string, i: nat) {
    && i + 4 <= |s|
    && ((s[i] == '1' && s[i + 1] == '9') || (s[i] == '2' && s[i + 1] == '0'))
    && IsDigit(s[i + 2]) && IsDigit(s[i + 3])
  }

  /** Four digits of the form 19dd or 20dd. */
  predicate IsYear(y: string) {
    |y| == 4 && YearAt(y, 0)
  }

  /** The four characters of a year found at `p`. */
  function YearText(s: string, p: nat): (y: string)
    requires YearAt(s, p)
    ensures IsYear(y) && y == s[p..p + 4]
  {
    s[p..p + 4]
  }

  /** A match of the structured-year expression: its span `[start, end)` and its capture. */
  datatype YearMatch = YearMatch(start: nat, year: string, end: nat)

  /**
   * `[\(\[]\s*((?:19|20)\d{2})\s*[\)\]]` tried at index `i`. Since `\s`
   * and the digits are disjoint, the greedy `\s*` never needs to give back.
   */
  function StructuredAt(s: string, i: nat): (m: Option<YearMatch>)
    ensures m.Some? ==> m.value.start == i && i + 6 <= m.value.end <= |s|
    ensures m.Some? ==> IsYear(m.value.year)
    ensures m.Some? ==> s[i] == '(' || s[i] == '['
    ensures m.Some? ==> s[m.value.end - 1] == ')' || s[m.value.end - 1] == ']'
  {
    if i < |s| && (s[i] == '(' || s[i] == '[') then
      var j := SkipSpaces(s, i + 1);
      if YearAt(s, j) then
        var k := SkipSpaces(s, j + 4);
        if k < |s| && (s[k] == ')' || s[k] == ']') then Some(YearMatch(i, s[j..j + 4], k + 1)) else None
      else None
    else None
  }

  /** No structured year starts in `[from, to)`. */
  predicate NoStructuredBetween(s: string, from: nat, to: nat) {
    forall i :: from <= i < to ==> StructuredAt(s, i).None?
  }

  /** The leftmost structured year at or after `from` (`String.prototype.match`, no `g` flag). */
  function FindStructured(s: string, from: nat): (m: Option<YearMatch>)
    requires from <= |s|
    ensures m.Some? ==> from <= m.value.start && m.value.start + 6 <= m.value.end <= |s|
    ensures m.Some? ==> IsYear(m.value.year)
    decreases |s| - from
  {
    if from == |s| then None
    else if StructuredAt(s, from).Some? then StructuredAt(s, from)
    else FindStructured(s, from + 1)
  }

  /**
   * `match` finds the leftmost structured year: what it returns is a match
   * at its start, and none starts before it; or none starts at all.
   */
  lemma {:induction false} FindStructuredLeftmost(s: string, from: nat)
    requires from <= |s|
    ensures FindStructured(s, from).Some? ==>
              var m := FindStructured(s, from).value;
              StructuredAt(s, m.start) == Some(m) && NoStructuredBetween(s, from, m.start)
    ensures FindStructured(s, from).None? ==> NoStructuredBetween(s, from, |s|)
    decreases |s| - from
  {
    if from < |s| && StructuredAt(s, from).None? {
      FindStructuredLeftmost(s, from + 1);
      var m := FindStructured(s, from);
      assert m == FindStructured(s, from + 1);
      var to := if m.Some? then m.value.start else |s|;
      forall i | from <= i < to ensures StructuredAt(s, i).None? {
        if i == from {
        } else {
          assert NoStructuredBetween(s, from + 1, to);
        }
      }
    }
  }

  /** Where no structured year starts, the search moves on unchanged. */
  lemma {:induction false} FindStructuredSkips(s: string, from: nat, to: nat)
    requires from <= to <= |s| && NoStructuredBetween(s, from, to)
    ensures FindStructured(s, from) == FindStructured(s, to)
    decreases |s| - from
  {
    if from < to {
      assert StructuredAt(s, from).None?;
      FindStructuredSkips(s, from + 1, to);
    }
  }

  /** `(?:^|\D)((?:19|20)\d{2})(?:\D|$)` with the captured year at index `p`. */
  predicate LooseYearAt(s: string, p: nat) {
    && YearAt(s, p)
    && (p == 0 || !IsDigit(s[p - 1]))
    && (p + 4 == |s| || !IsDigit(s[p + 4]))
  }

  /**
   * The capture of the leftmost loose-year match at or after `from`. The match
   * tried at index 0 captures at 0 (`^`) or at 1 (`\D`); the match tried at
   * index i > 0 captures at i + 1; so captures are tried in increasing order.
   */
  function FindLoose(s: string, from: nat): (p: Option<nat>)
    requires from <= |s|
    ensures p.Some? ==> from <= p.value && LooseYearAt(s, p.value)
    ensures p.Some? ==> forall q :: from <= q < p.value ==> !LooseYearAt(s, q)
    ensures p.None? ==> forall q :: from <= q ==> !LooseYearAt(s, q)
    decreases |s| - from
  {
    if from + 4 > |s| then None
    else if LooseYearAt(s, from) then Some(from)
    else FindLoose(s, from + 1)
  }

  /**
   * Stages 1 and 2 of the pipeline (after the optional bracket stripping):
   * the recorded year and the text that goes on to noise removal.
   */
  function ExtractYear(s: string): (r: (string, Option<string>))
    ensures r.1.Some? ==> IsYear(r.1.value)
    // a structured year wins and cuts the text before it, or, at index 0, is replaced by one space
    ensures FindStructured(s, 0).Some? ==>
              var m := FindStructured(s, 0).value;
              && r.1 == Some(m.year)
              && r.0 == (if m.start > 0 then s[..m.start] else " " + s[m.end..])
    // the loose year is only a fallback, and it never cuts the text
    ensures FindStructured(s, 0).None? ==> r.0 == s
    ensures FindStructured(s, 0).None? ==>
              r.1 == if FindLoose(s, 0).Some? then Some(YearText(s, FindLoose(s, 0).value)) else None
  {
    match FindStructured(s, 0)
    case Some(m) =>
      (if m.start > 0 then s[..m.start] else " " + s[m.end..], Some(m.year))
    case None =>
      match FindLoose(s, 0)
      case Some(p) => (s, Some(YearText(s, p)))
      case None => (s, None)
  }

  // ---------------------------------------------------------------------
  // Bracket stripping: `replace(/\[.*?\]/g, ' ')`
  // ---------------------------------------------------------------------

  /** The first index at or after `i` holding `]` or a line terminator (which `.` cannot cross), else `|s|`. */
  function BracketStop(s: string, i: nat): (k: nat)
    requires i <= |s|
    ensures i <= k <= |s|
    ensures forall n :: i <= n < k ==> s[n] != ']' && !IsLineTerminator(s[n])
    ensures k < |s| ==> s[k] == ']' || IsLineTerminator(s[k])
    decreases |s| - i
  {
    if i == |s| || s[i] == ']' || IsLineTerminator(s[i]) then i else BracketStop(s, i + 1)
  }

  /** Every `[` closed by the first following `]` on the same line becomes one space. */
  function StripBrackets(s: string): (r: string)
    ensures |r| <= |s|
    decreases |s|
  {
    if s == [] then []
    else if s[0] == '[' && BracketStop(s, 1) < |s| && s[BracketStop(s, 1)] == ']' then
      [' '] + StripBrackets(s[BracketStop(s, 1) + 1..])
    else
      [s[0]] + StripBrackets(s[1..])
  }

  // ---------------------------------------------------------------------
  // Noise removal
  // ---------------------------------------------------------------------

  /** A non-empty spelling, written in lower case. */
  type Form = w: string | |w| > 0 witness "x"

  /**
   * The three shapes the noise expressions take, all with the `gi` flags:
   *   Resolution            `\b\d{3,4}p\b`
   *   Word(forms)           `\b(form1|form2|...)\b`, alternatives tried in order
   *   Spaced(heads, tail)   `\b(head1|head2|...)\s*tail\b`
   */
  datatype NoisePattern =
    | Resolution
    | Word(forms: seq<Form>)
    | Spaced(heads: seq<string>, tail: Form)

  /** `MovieParser.NOISE_PATTERNS`, in the order the script applies them. */
  const NOISE_PATTERNS: seq<NoisePattern> := [
    Resolution,                                 // \b\d{3,4}p\b
    Word(["4k"]),                               // \b4k\b
    Spaced(["full", ""], "hd"),                 // \b(Full)?\s*HD\b
    Word(["uhd"]),                              // \bUHD\b
    Word(["bluray"]),                           // \bBluRay\b
    Word(["web-dl", "webdl"]),                  // \bWEB-?DL\b
    Word(["web-rip", "webrip"]),                // \bWEB-?Rip\b
    Word(["hdrip"]),                            // \bHDRip\b
    Word(["hdr10"]),                            // \bHDR10\b
    Word(["dvdrip"]),                           // \bDVDRip\b
    Word(["h.264", "h.265", "h264", "h265"]),   // \bH\.?26[45]\b
    Word(["x264", "x265"]),                     // \bx26[45]\b
    Word(["hevc"]),                             // \bHEVC\b
    Word(["latino"]),                           // \bLatino\b
    Word(["castellano"]),                       // \bCastellano\b
    Word(["dual"]),                             // \bDual\b
    Word(["subtitulada", "sub"]),               // \bSub(?:titulada)?\b
    Word(["multi"]),                            // \bMulti\b
    Word(["extended"]),                         // \bExtended\b
    Spaced(["director's", "directors"], "cut")  // \bDirector'?s\s*Cut\b
  ]

  /** The end of the run of digits starting at `i`. */
  function DigitsEnd(s: string, i: nat): (j: nat)
    requires i <= |s|
    ensures i <= j <= |s|
    ensures forall n :: i <= n < j ==> IsDigit(s[n])
    ensures j == |s| || !IsDigit(s[j])
    decreases |s| - i
  {
    if i < |s| && IsDigit(s[i]) then DigitsEnd(s, i + 1) else i
  }

  /**
   * `\b\d{3,4}p\b` at `i`. With four digits present the three-digit
   * alternative would need a `p` where a digit stands, so only a run of
   * exactly three or four digits followed by `p` can match.
   */
  function ResolutionAt(s: string, i: nat): (e: Option<nat>)
    requires i <= |s|
    ensures e.Some? ==> i + 4 <= e.value <= i + 5 && e.value <= |s|
  {
    var d := DigitsEnd(s, i) - i;
    if WordBoundary(s, i) && (d == 3 || d == 4) && i + d < |s| && (s[i + d] == 'p' || s[i + d] == 'P')
       && WordBoundary(s, i + d + 1)
    then Some(i + d + 1)
    else None
  }

  /** The first alternative among `forms` that matches at `i` and is followed by `\b`. */
  function WordFormAt(forms: seq<Form>, s: string, i: nat): (e: Option<nat>)
    requires i <= |s|
    ensures e.Some? ==> i < e.value <= |s| && WordBoundary(s, e.value)
    ensures e.Some? ==> exists k :: 0 <= k < |forms| && e.value == i + |forms[k]| && MatchesIgnoringCase(s, i, forms[k])
    decreases |forms|
  {
    if forms == [] then None
    else if MatchesIgnoringCase(s, i, forms[0]) && WordBoundary(s, i + |forms[0]|) then Some(i + |forms[0]|)
    else
      var e := WordFormAt(forms[1..], s, i);
      if e.Some? then
        var k :| 0 <= k < |forms[1..]| && e.value == i + |forms[1..][k]| && MatchesIgnoringCase(s, i, forms[1..][k]);
        assert forms[1..][k] == forms[k + 1];
        e
      else e
  }

  /** The first alternative among `heads` after which `\s*tail\b` matches. */
  function SpacedAt(heads: seq<string>, tail: Form, s: string, i: nat): (e: Option<nat>)
    requires i <= |s|
    ensures e.Some? ==> i < e.value <= |s| && WordBoundary(s, e.value)
    decreases |heads|
  {
    if heads == [] then None
    else if MatchesIgnoringCase(s, i, heads[0])
            && MatchesIgnoringCase(s, SkipSpaces(s, i + |heads[0]|), tail)
            && WordBoundary(s, SkipSpaces(s, i + |heads[0]|) + |tail|)
    then Some(SkipSpaces(s, i + |heads[0]|) + |tail|)
    else SpacedAt(heads[1..], tail, s, i)
  }

  /** The end of the match of pattern `p` tried at index `i`, if there is one; every match opens at a `\b`. */
  function MatchAt(p: NoisePattern, s: string, i: nat): (e: Option<nat>)
    requires i <= |s|
    ensures e.Some? ==> i < e.value <= |s| && WordBoundary(s, i) && WordBoundary(s, e.value)
  {
    if !WordBoundary(s, i) then None
    else match p
      case Resolution => ResolutionAt(s, i)
      case Word(forms) => WordFormAt(forms, s, i)
      case Spaced(heads, tail) => SpacedAt(heads, tail, s, i)
  }

  /**
   * `s.replace(p, ' ')` for a global pattern, from index `i` on: matches are
   * taken left to right without overlap and each becomes one space; `\b` is
   * judged on the original string.
   */
  function ReplaceFrom(p: NoisePattern, s: string, i: nat): (r: string)
    requires i <= |s|
    ensures |r| <= |s| - i
    decreases |s| - i
  {
    if i == |s| then []
    else match MatchAt(p, s, i)
      case Some(e) => [' '] + ReplaceFrom(p, s, e)
      case None => [s[i]] + ReplaceFrom(p, s, i + 1)
  }

  function Replace(p: NoisePattern, s: string): (r: string)
    ensures |r| <= |s|
  {
    ReplaceFrom(p, s, 0)
  }

  /** The first `n` patterns of `ps` applied in order, each to the result of the one before. */
  function RemoveNoise(ps: seq<NoisePattern>, n: nat, s: string): (r: string)
    requires n <= |ps|
    ensures |r| <= |s|
  {
    if n == 0 then s else Replace(ps[n - 1], RemoveNoise(ps, n - 1, s))
  }

  // ---------------------------------------------------------------------
  // Clean-up
  // ---------------------------------------------------------------------

  predicate IsSeparator(c: char) {
    c == '.' || c == '_' || c == '-'
  }

  predicate NoSeparators(s: string) {
    forall i :: 0 <= i < |s| ==> !IsSeparator(s[i])
  }

  /** No two consecutive white-space characters. */
  predicate Collapsed(s: string) {
    forall i :: 0 < i < |s| ==> !IsSpace(s[i - 1]) || !IsSpace(s[i])
  }

  predicate Trimmed(s: string) {
    s == [] || (!IsSpace(s[0]) && !IsSpace(s[|s| - 1]))
  }

  /** What the clean-up stages guarantee of a title. */
  predicate Tidy(s: string) {
    NoSeparators(s) && Collapsed(s) && Trimmed(s)
  }

  /** `replace(/[._\-]/g, ' ')` */
  function SeparatorsToSpaces(s: string): (r: string)
    ensures |r| == |s| && NoSeparators(r)
    ensures forall i :: 0 <= i < |s| ==> r[i] == if IsSeparator(s[i]) then ' ' else s[i]
  {
    seq(|s|, i requires 0 <= i < |s| => if IsSeparator(s[i]) then ' ' else s[i])
  }

  /** `replace(/\s+/g, ' ')`: every maximal run of white space becomes one space. */
  function CollapseSpaces(s: string): (r: string)
    ensures |r| <= |s|
    ensures Collapsed(r)
    ensures NoSeparators(s) ==> NoSeparators(r)
    ensures s != [] && !IsSpace(s[0]) ==> r != [] && r[0] == s[0]
    ensures s != [] && IsSpace(s[0]) ==> r != [] && r[0] == ' '
    decreases |s|
  {
    if s == [] then []
    else if IsSpace(s[0]) then
      var rest := CollapseSpaces(s[SkipSpaces(s, 0)..]);
      [' '] + rest
    else
      var rest := CollapseSpaces(s[1..]);
      [s[0]] + rest
  }

  /** `trim()` applied to a tidy-in-the-middle string keeps it so. */
  lemma TrimKeepsTidy(s: string)
    requires NoSeparators(s) && Collapsed(s)
    ensures Tidy(Trim(s))
  {
    var a := SkipSpaces(s, 0);
    var t := TrimStart(s);
    assert t == s[a..];
    var r := TrimEnd(t);
    assert r == s[a..a + |r|];
  }

  /**
   * `if (year && cleanText.endsWith(year)) cleanText = cleanText.replace(new RegExp('\\b' + year + '$'), '').trim()`:
   * the only place the expression can match is the last four characters, and
   * only when `\b` holds before them.
   */
  function DropTrailingYear(s: string, year: string): (r: string)
    requires IsYear(year) && EndsWith(s, year) && Tidy(s)
    ensures Tidy(r)
    ensures WordBoundary(s, |s| - 4) ==> |r| <= |s| - 4 && r == s[..|r|]
    ensures WordBoundary(s, |s| - 4) ==> r == s[..|s| - 4] || (|s| >= 5 && IsSpace(s[|s| - 5]) && r == s[..|s| - 5])
    ensures !WordBoundary(s, |s| - 4) ==> r == s
  {
    if WordBoundary(s, |s| - 4) then
      var u := s[..|s| - 4];
      TrimKeepsTidy(u);
      assert Trim(u) == TrimEnd(u);
      if u != [] && IsSpace(u[|u| - 1]) then
        var v := s[..|s| - 5];
        assert u[..|u| - 1] == v && v != [];
        assert !IsSpace(v[|v| - 1]);
        TrimEndKeeps(v);
        Trim(u)
      else
        Trim(u)
    else
      assert TrimEnd(s) == s;
      Trim(s)
  }

  /** The start of the run of white space that ends at index `e`. */
  function SpaceRunStart(s: string, e: nat): (k: nat)
    requires e <= |s|
    ensures k <= e
    ensures forall n :: k <= n < e ==> IsSpace(s[n])
    ensures k == 0 || !IsSpace(s[k - 1])
  {
    if e > 0 && IsSpace(s[e - 1]) then SpaceRunStart(s, e - 1) else e
  }

  /** `replace(/\s+y$/i, '')`: a final `y`/`Y` and the white space before it are dropped. */
  function DropTrailingConjunction(s: string): (r: string)
    requires Tidy(s)
    ensures |r| <= |s| && r == s[..|r|] && Tidy(r)
    ensures |s| >= 2 && (s[|s| - 1] == 'y' || s[|s| - 1] == 'Y') && IsSpace(s[|s| - 2]) ==> |r| == |s| - 2
    ensures !(|s| >= 2 && (s[|s| - 1] == 'y' || s[|s| - 1] == 'Y') && IsSpace(s[|s| - 2])) ==> r == s
  {
    if |s| >= 2 && (s[|s| - 1] == 'y' || s[|s| - 1] == 'Y') && IsSpace(s[|s| - 2]) then
      var k := SpaceRunStart(s, |s| - 1);
      assert |s| >= 3 && !IsSpace(s[|s| - 3]);
      assert k == |s| - 2;
      s[..k]
    else s
  }

  // ---------------------------------------------------------------------
  // The whole pipeline
  // ---------------------------------------------------------------------

  /**
   * Stages 3 to 6, applied to the text that year extraction left: noise
   * removal, separator and white-space clean-up, the trailing year and the
   * trailing conjunction.
   */
  function CleanTitle(text: string, year: Option<string>): (title: string)
    requires year.Some? ==> IsYear(year.value)
    ensures Tidy(title)
  {
    var t3 := CollapseSpaces(SeparatorsToSpaces(RemoveNoise(NOISE_PATTERNS, |NOISE_PATTERNS|, text)));
    TrimKeepsTidy(t3);
    var t4 := Trim(t3);
    var t5 := if year.Some? && EndsWith(t4, year.value) then DropTrailingYear(t4, year.value) else t4;
    DropTrailingConjunction(t5)
  }

  /** The bracket stripping that `removeBracketContents` asks for. */
  function Prepare(rawText: string, options: ParseOptions): string {
    if options.removeBracketContents then StripBrackets(rawText) else rawText
  }

  /** `MovieParser.parse(rawText, options)`; the empty string is the script's only falsy string. */
  function Normalize(rawText: string, options: ParseOptions): (r: Parsed)
    ensures rawText == [] ==> r == Parsed("", None)
    ensures r.year.Some? ==> IsYear(r.year.value)
    ensures Tidy(r.title)
  {
    if rawText == [] then Parsed("", None)
    else
      var (text, year) := ExtractYear(Prepare(rawText, options));
      Parsed(CleanTitle(text, year), year)
  }

  /** `patterns.forEach(pattern => { cleanText = cleanText.replace(pattern, ' ') })` */
  method RemoveAllNoise(patterns: seq<NoisePattern>, text: string) returns (cleanText: string)
    ensures cleanText == RemoveNoise(patterns, |patterns|, text)
  {
    cleanText := text;
    for k := 0 to |patterns|
      invariant cleanText == RemoveNoise(patterns, k, text)
    {
      cleanText := Replace(patterns[k], cleanText);
    }
  }

  /**
   * The script's `parse`, stage by stage over the locals `cleanText` and
   * `year`, with the `forEach` over the noise patterns as a loop.
   */
  method Parse(rawText: string, options: ParseOptions) returns (r: Parsed)
    ensures r == Normalize(rawText, options)
  {
    if rawText == [] {
      return Parsed("", None);
    }
    var cleanText := rawText;
    var year: Option<string> := None;

    if options.removeBracketContents {
      cleanText := StripBrackets(cleanText);
    }

    var explicitYearMatch := FindStructured(cleanText, 0);
    if explicitYearMatch.Some? {
      year := Some(explicitYearMatch.value.year);
      if explicitYearMatch.value.start > 0 {
        cleanText := cleanText[..explicitYearMatch.value.start];
      } else {
        cleanText := " " + cleanText[explicitYearMatch.value.end..];
      }
    } else {
      var yearMatch := FindLoose(cleanText, 0);
      if yearMatch.Some? {
        year := Some(cleanText[yearMatch.value..yearMatch.value + 4]);
      }
    }

    assert (cleanText, year) == ExtractYear(Prepare(rawText, options));
    ghost var afterYear := cleanText;
    cleanText := RemoveAllNoise(NOISE_PATTERNS, cleanText);

    cleanText := SeparatorsToSpaces(cleanText);
    cleanText := CollapseSpaces(cleanText);
    TrimKeepsTidy(cleanText);
    cleanText := Trim(cleanText);

    if year.Some? && EndsWith(cleanText, year.value) {
      cleanText := DropTrailingYear(cleanText, year.value);
    }

    cleanText := DropTrailingConjunction(cleanText);
    assert cleanText == CleanTitle(afterYear, year);
    r := Parsed(cleanText, year);
  }
}
