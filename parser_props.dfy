/**
 * Properties of the title normaliser: what the structured-year expression
 * accepts, where the recorded year comes from, how a structured year cuts
 * the text, and what bracket stripping leaves behind.
 */
module MovieParserProps {
  import opened Wrappers
  import opened JsString
  import opened MovieParser
  import opened NoiseProps

  // ---------------------------------------------------------------------
  // The structured-year expression
  // ---------------------------------------------------------------------

  /** Every text of the shape `[\(\[]\s*year\s*[\)\]]` at `i` is matched, with its year captured. */
  lemma StructuredAtComplete(s: string, i: nat, j: nat, k: nat)
    requires i < j && j + 4 <= k < |s|
    requires s[i] == '(' || s[i] == '['
    requires forall n :: i < n < j ==> IsSpace(s[n])
    requires YearAt(s, j)
    requires forall n :: j + 4 <= n < k ==> IsSpace(s[n])
    requires s[k] == ')' || s[k] == ']'
    ensures StructuredAt(s, i) == Some(YearMatch(i, s[j..j + 4], k + 1))
  {
    SkipSpacesTo(s, i + 1, j);
    SkipSpacesTo(s, j + 4, k);
  }

  /** And nothing else is: a match is an opener, white space, a year, white space and a closer. */
  lemma StructuredAtSound(s: string, i: nat)
    ensures StructuredAt(s, i).Some? ==>
              var m := StructuredAt(s, i).value;
              exists j :: && i < j && j + 4 < m.end
                          && (forall n :: i < n < j ==> IsSpace(s[n]))
                          && YearAt(s, j) && m.year == s[j..j + 4]
                          && (forall n :: j + 4 <= n < m.end - 1 ==> IsSpace(s[n]))
  {
    if StructuredAt(s, i).Some? {
      var j := SkipSpaces(s, i + 1);
      assert YearAt(s, j);
    }
  }

  /** A structured match can only open at `(` or `[`. */
  lemma NoOpenerNoStructured(s: string, from: nat, to: nat)
    requires from <= to <= |s|
    requires forall i :: from <= i < to ==> s[i] != '(' && s[i] != '['
    ensures NoStructuredBetween(s, from, to)
  {
  }

  // ---------------------------------------------------------------------
  // The recorded year
  // ---------------------------------------------------------------------

  /** The first structured match decides the year stage. */
  lemma ExtractFirstStructured(s: string, n: nat, m: YearMatch)
    requires n <= |s| && NoStructuredBetween(s, 0, n) && StructuredAt(s, n) == Some(m)
    ensures ExtractYear(s) == (if n > 0 then s[..n] else " " + s[m.end..], Some(m.year))
  {
    FindStructuredSkips(s, 0, n);
  }

  /** The year the year stage records is four characters of the text it scans. */
  lemma ExtractedYearOccurs(s: string)
    ensures ExtractYear(s).1.Some? ==> Contains(s, ExtractYear(s).1.value)
  {
    FindStructuredLeftmost(s, 0);
    match FindStructured(s, 0)
    case Some(m) =>
      StructuredAtSound(s, m.start);
      var j :| m.start < j && j + 4 < m.end && YearAt(s, j) && m.year == s[j..j + 4];
      assert OccursAt(s, m.year, j);
    case None =>
      if FindLoose(s, 0).Some? {
        var p := FindLoose(s, 0).value;
        assert OccursAt(s, YearText(s, p), p);
      }
  }

  /** The year `parse` records is four characters of its (bracket-stripped) input. */
  lemma YearComesFromInput(rawText: string, options: ParseOptions)
    ensures Normalize(rawText, options).year.Some? ==>
              Contains(Prepare(rawText, options), Normalize(rawText, options).year.value)
  {
    if rawText != [] {
      var s := Prepare(rawText, options);
      assert Normalize(rawText, options).year == ExtractYear(s).1;
      ExtractedYearOccurs(s);
    }
  }

  /**
   * A structured year after a prefix without `(` or `[` is the recorded year,
   * and only the prefix goes on to the clean-up; what follows the match is
   * dropped, whatever it is.
   */
  lemma StructuredYearCutsText(prefix: string, opener: char, year: string, closer: char, rest: string)
    requires prefix != [] && forall i :: 0 <= i < |prefix| ==> prefix[i] != '(' && prefix[i] != '['
    requires (opener == '(' || opener == '[') && (closer == ')' || closer == ']')
    requires IsYear(year)
    ensures Normalize(prefix + [opener] + year + [closer] + rest, DefaultOptions)
            == Parsed(CleanTitle(prefix, Some(year)), Some(year))
  {
    var s := prefix + [opener] + year + [closer] + rest;
    var n := |prefix|;
    assert s[..n] == prefix;
    assert s[n + 1..n + 5] == year;
    assert forall i :: 0 <= i < n ==> s[i] == prefix[i];
    NoOpenerNoStructured(s, 0, n);
    StructuredAtComplete(s, n, n + 1, n + 5);
    ExtractFirstStructured(s, n, YearMatch(n, year, n + 6));
  }

  /** A structured year at index 0 is replaced by one space and the rest of the text survives. */
  lemma StructuredYearAtStart(opener: char, year: string, closer: char, rest: string)
    requires (opener == '(' || opener == '[') && (closer == ')' || closer == ']')
    requires IsYear(year)
    ensures Normalize([opener] + year + [closer] + rest, DefaultOptions)
            == Parsed(CleanTitle(" " + rest, Some(year)), Some(year))
  {
    var s := [opener] + year + [closer] + rest;
    assert s[1..5] == year;
    assert s[6..] == rest;
    StructuredAtComplete(s, 0, 1, 5);
    ExtractFirstStructured(s, 0, YearMatch(0, year, 6));
  }

  /** Without a structured year the loose year is recorded and the whole text goes on to the clean-up. */
  lemma LooseYearKeepsText(rawText: string, p: nat)
    requires rawText != [] && FindStructured(rawText, 0).None?
    requires LooseYearAt(rawText, p) && forall q :: 0 <= q < p ==> !LooseYearAt(rawText, q)
    ensures Normalize(rawText, DefaultOptions)
            == Parsed(CleanTitle(rawText, Some(YearText(rawText, p))), Some(YearText(rawText, p)))
  {
    var f := FindLoose(rawText, 0);
    assert f.Some?;
    assert LooseYearAt(rawText, f.value);
    assert f.value == p;
    assert ExtractYear(rawText) == (rawText, Some(YearText(rawText, p)));
  }

  // ---------------------------------------------------------------------
  // Bracket stripping
  // ---------------------------------------------------------------------

  /** No `[` of `r` is followed by a `]` on the same line. */
  predicate NoBracketSpan(r: string) {
    forall i :: 0 <= i < |r| && r[i] == '[' ==> BracketStop(r, i + 1) == |r| || r[BracketStop(r, i + 1)] != ']'
  }

  lemma {:induction false} BracketStopShift(c: char, r: string, i: nat)
    requires i <= |r|
    ensures BracketStop([c] + r, i + 1) == BracketStop(r, i) + 1
    decreases |r| - i
  {
    var s := [c] + r;
    assert s[i + 1..] == r[i..];
    if i < |r| && r[i] != ']' && !IsLineTerminator(r[i]) {
      BracketStopShift(c, r, i + 1);
    }
  }

  /** A text whose first `]` comes after a line break (or is missing) keeps that property when stripped. */
  lemma {:induction false} StripKeepsUnclosed(u: string)
    requires BracketStop(u, 0) == |u| || u[BracketStop(u, 0)] != ']'
    ensures var r := StripBrackets(u); BracketStop(r, 0) == |r| || r[BracketStop(r, 0)] != ']'
    decreases |u|
  {
    if u != [] && !IsLineTerminator(u[0]) {
      var r := StripBrackets(u);
      BracketStopShift(u[0], u[1..], 0);
      assert [u[0]] + u[1..] == u;
      assert BracketStop(u, 1) == BracketStop(u, 0);
      StripKeepsUnclosed(u[1..]);
      var rest := StripBrackets(u[1..]);
      assert r == [u[0]] + rest;
      BracketStopShift(u[0], rest, 0);
      assert BracketStop(r, 0) == BracketStop(r, 1);
    }
  }

  /** Putting one character in front keeps `NoBracketSpan` unless it is a `[` closed on the same line. */
  lemma NoSpanCons(c: char, rest: string)
    requires NoBracketSpan(rest)
    requires c == '[' ==> BracketStop(rest, 0) == |rest| || rest[BracketStop(rest, 0)] != ']'
    ensures NoBracketSpan([c] + rest)
  {
    var r := [c] + rest;
    forall i | 0 <= i < |r| && r[i] == '['
      ensures BracketStop(r, i + 1) == |r| || r[BracketStop(r, i + 1)] != ']'
    {
      BracketStopShift(c, rest, i);
      if i > 0 {
        assert rest[i - 1] == '[';
      }
    }
  }

  /** After `replace(/\[.*?\]/g, ' ')` no `[` is closed on its own line. */
  lemma {:induction false} StripBracketsNoSpan(s: string)
    ensures NoBracketSpan(StripBrackets(s))
    decreases |s|
  {
    if s != [] {
      if s[0] == '[' && BracketStop(s, 1) < |s| && s[BracketStop(s, 1)] == ']' {
        StripBracketsNoSpan(s[BracketStop(s, 1) + 1..]);
        NoSpanCons(' ', StripBrackets(s[BracketStop(s, 1) + 1..]));
      } else {
        StripBracketsNoSpan(s[1..]);
        if s[0] == '[' {
          BracketStopShift(s[0], s[1..], 0);
          assert [s[0]] + s[1..] == s;
          StripKeepsUnclosed(s[1..]);
        }
        NoSpanCons(s[0], StripBrackets(s[1..]));
      }
    }
  }

  /** Text without `[` is copied by the bracket stripping. */
  lemma {:induction false} StripBracketsCopies(a: string, t: string)
    requires forall i :: 0 <= i < |a| ==> a[i] != '['
    ensures StripBrackets(a + t) == a + StripBrackets(t)
    decreases |a|
  {
    if a != [] {
      assert (a + t)[1..] == a[1..] + t;
      StripBracketsCopies(a[1..], t);
      assert a == [a[0]] + a[1..];
    } else {
      assert a + t == t;
    }
  }

  /** `BracketStop` passes over characters that are neither `]` nor line terminators. */
  lemma {:induction false} BracketStopPast(s: string, i: nat, k: nat)
    requires i <= k <= |s|
    requires forall n :: i <= n < k ==> s[n] != ']' && !IsLineTerminator(s[n])
    ensures BracketStop(s, i) == BracketStop(s, k)
    decreases k - i
  {
    if i < k {
      BracketStopPast(s, i + 1, k);
    }
  }

  /** A `[` closed by the next `]` on the same line becomes, with everything up to that `]`, one space. */
  lemma StripBracketsSpan(b: string, c: string)
    requires forall i :: 0 <= i < |b| ==> b[i] != ']' && !IsLineTerminator(b[i])
    ensures StripBrackets(['['] + b + [']'] + c) == [' '] + StripBrackets(c)
  {
    var s := ['['] + b + [']'] + c;
    assert forall n :: 1 <= n < 1 + |b| ==> s[n] == b[n - 1];
    BracketStopPast(s, 1, 1 + |b|);
    assert s[1 + |b|] == ']';
    assert s[2 + |b|..] == c;
  }

  /** A `[` with no `]` before the end of its line is kept, and stripping goes on right after it. */
  lemma StripBracketsUnclosed(b: string, c: string)
    requires forall i :: 0 <= i < |b| ==> b[i] != ']' && !IsLineTerminator(b[i])
    requires c == [] || IsLineTerminator(c[0])
    ensures StripBrackets(['['] + b + c) == ['['] + StripBrackets(b + c)
  {
    var s := ['['] + b + c;
    UnclosedStop(b, c);
    assert s[0] == '[' && s[1..] == b + c;
    assert StripBrackets(s) == [s[0]] + StripBrackets(s[1..]);
  }

  /** The scan from just after an unclosed `[` stops at the end of its line, on no `]`. */
  lemma UnclosedStop(b: string, c: string)
    requires forall i :: 0 <= i < |b| ==> b[i] != ']' && !IsLineTerminator(b[i])
    requires c == [] || IsLineTerminator(c[0])
    ensures var s := ['['] + b + c;
            BracketStop(s, 1) == 1 + |b| && (1 + |b| == |s| || s[1 + |b|] != ']')
  {
    var s := ['['] + b + c;
    assert forall n :: 1 <= n < 1 + |b| ==> s[n] == b[n - 1];
    BracketStopPast(s, 1, 1 + |b|);
    if c != [] {
      assert s[1 + |b|] == c[0];
    }
  }

  /**
   * With `removeBracketContents`, a year written between `[` and `]` is
   * never the structured year unless a line break stands inside the brackets.
   */
  lemma BracketedYearNeedsLineBreak(rawText: string)
    requires FindStructured(StripBrackets(rawText), 0).Some?
    ensures var r := StripBrackets(rawText);
            var m := FindStructured(r, 0).value;
            r[m.start] == '[' && r[m.end - 1] == ']' ==>
              exists k :: m.start < k < m.end - 1 && IsLineTerminator(r[k])
  {
    var r := StripBrackets(rawText);
    var m := FindStructured(r, 0).value;
    if r[m.start] == '[' && r[m.end - 1] == ']' {
      FindStructuredLeftmost(r, 0);
      StripBracketsNoSpan(rawText);
      var stop := BracketStop(r, m.start + 1);
      assert stop < m.end - 1;
      assert IsLineTerminator(r[stop]);
    }
  }

  // ---------------------------------------------------------------------
  // Clean-up
  // ---------------------------------------------------------------------

  lemma SeparatorsToSpacesKeeps(s: string)
    requires NoSeparators(s)
    ensures SeparatorsToSpaces(s) == s
  {
  }

  /** Only white space other than a plain space, or a run of it, is rewritten by the collapse. */
  lemma {:induction false} CollapseSpacesKeeps(s: string)
    requires Collapsed(s) && forall i :: 0 <= i < |s| && IsSpace(s[i]) ==> s[i] == ' '
    ensures CollapseSpaces(s) == s
    decreases |s|
  {
    if s != [] {
      assert Collapsed(s[1..]);
      CollapseSpacesKeeps(s[1..]);
      if IsSpace(s[0]) {
        SkipSpacesTo(s, 0, 1);
      }
    }
  }

  /** A stretch without white space is copied by the collapse. */
  lemma {:induction false} CollapseSpacesCopies(w: string, t: string)
    requires forall i :: 0 <= i < |w| ==> !IsSpace(w[i])
    ensures CollapseSpaces(w + t) == w + CollapseSpaces(t)
    decreases |w|
  {
    if w != [] {
      assert (w + t)[1..] == w[1..] + t;
      CollapseSpacesCopies(w[1..], t);
      assert w == [w[0]] + w[1..];
    } else {
      assert w + t == t;
    }
  }

  /** A maximal run of white space becomes one plain space. */
  lemma CollapseSpacesRun(r: string, t: string)
    requires r != [] && AllSpaces(r)
    requires t == [] || !IsSpace(t[0])
    ensures CollapseSpaces(r + t) == " " + CollapseSpaces(t)
  {
    var s := r + t;
    SkipSpacesTo(s, 0, |r|);
    assert s[|r|..] == t;
  }

  /** The collapse writes plain spaces and the input's other characters, nothing else. */
  lemma {:induction false} CollapseSpacesCharacters(s: string)
    ensures forall c :: c in CollapseSpaces(s) ==> c == ' ' || (c in s && !IsSpace(c))
    decreases |s|
  {
    if s != [] {
      var k := if IsSpace(s[0]) then SkipSpaces(s, 0) else 1;
      CollapseSpacesCharacters(s[k..]);
      forall c | c in s[k..] ensures c in s {
        var n :| 0 <= n < |s[k..]| && s[k..][n] == c;
        assert s[n + k] == c;
      }
    }
  }

  /** Noise removal writes spaces and the input's characters, nothing else. */
  lemma {:induction false} RemoveNoiseCharacters(ps: seq<NoisePattern>, n: nat, s: string)
    requires n <= |ps|
    ensures forall c :: c in RemoveNoise(ps, n, s) ==> c == ' ' || c in s
  {
    if n > 0 {
      RemoveNoiseCharacters(ps, n - 1, s);
      var t := RemoveNoise(ps, n - 1, s);
      ReplaceKeepsCharacters(ps[n - 1], t, 0);
      assert t[0..] == t;
    }
  }

  /** Separator replacement and the collapse write plain spaces and the input's characters that are neither white space nor separators. */
  lemma SpacingCharacters(t: string)
    ensures forall c :: c in CollapseSpaces(SeparatorsToSpaces(t)) ==> c == ' ' || (c in t && !IsSpace(c) && !IsSeparator(c))
  {
    var u := SeparatorsToSpaces(t);
    assert forall c :: c in u ==> c == ' ' || (c in t && !IsSeparator(c));
    CollapseSpacesCharacters(u);
  }

  /**
   * Every character of a cleaned title is a plain space or a character of
   * the text that is neither white space nor a separator: the clean-up only
   * deletes and blanks, it never invents text.
   */
  lemma CleanTitleCharacters(text: string, year: Option<string>)
    requires year.Some? ==> IsYear(year.value)
    ensures forall c :: c in CleanTitle(text, year) ==> c == ' ' || (c in text && !IsSpace(c) && !IsSeparator(c))
  {
    var t1 := RemoveNoise(NOISE_PATTERNS, |NOISE_PATTERNS|, text);
    RemoveNoiseCharacters(NOISE_PATTERNS, |NOISE_PATTERNS|, text);
    var t3 := CollapseSpaces(SeparatorsToSpaces(t1));
    SpacingCharacters(t1);
    TrimKeepsTidy(t3);
    var t4 := Trim(t3);
    assert forall c :: c in t4 ==> c in t3 by {
      var a := TrimStart(t3);
      assert forall c :: c in a ==> c in t3;
    }
    var t5 := if year.Some? && EndsWith(t4, year.value) then DropTrailingYear(t4, year.value) else t4;
    assert forall c :: c in t5 ==> c in t4;
    var title := CleanTitle(text, year);
    assert title == DropTrailingConjunction(t5);
    assert forall c :: c in title ==> c in t5;
  }

  /**
   * Text that is already clean (no noise, no separators, single plain
   * spaces, no trailing year or conjunction) comes out of the clean-up
   * merely trimmed.
   */
  lemma CleanTitleOfPlainText(text: string, year: Option<string>)
    requires year.Some? ==> IsYear(year.value)
    requires forall m :: 0 <= m < |text| ==> !NoiseMayOpen(text, m)
    requires NoSeparators(text) && Collapsed(text)
    requires forall i :: 0 <= i < |text| && IsSpace(text[i]) ==> text[i] == ' '
    requires year.Some? ==> !EndsWith(Trim(text), year.value)
    requires !(|Trim(text)| >= 2 && (Trim(text)[|Trim(text)| - 1] == 'y' || Trim(text)[|Trim(text)| - 1] == 'Y')
               && IsSpace(Trim(text)[|Trim(text)| - 2]))
    ensures CleanTitle(text, year) == Trim(text)
  {
    NoiseFreeKept(text);
    SeparatorsToSpacesKeeps(text);
    CollapseSpacesKeeps(text);
  }

  /** A word followed by a space is plain text that trims to the word. */
  lemma WordThenSpace(w: string)
    requires w != [] && forall i :: 0 <= i < |w| ==> IsAsciiAlnum(w[i])
    ensures var text := w + " ";
            && NoSeparators(text) && Collapsed(text)
            && (forall i :: 0 <= i < |text| && IsSpace(text[i]) ==> text[i] == ' ')
            && Trim(text) == w
  {
    var text := w + " ";
    assert forall i :: 0 <= i < |w| ==> text[i] == w[i];
    TrimTrailingSpace(w);
  }

  /** A single alphanumeric word followed by a space, with nothing for the noise patterns to take, comes out as the word. */
  lemma CleanTitleOfWord(w: string, year: Option<string>)
    requires year.Some? ==> IsYear(year.value) && !EndsWith(w, year.value)
    requires w != [] && forall i :: 0 <= i < |w| ==> IsAsciiAlnum(w[i])
    requires forall m :: 0 <= m < |w + " "| ==> !NoiseMayOpen(w + " ", m)
    ensures CleanTitle(w + " ", year) == w
  {
    WordThenSpace(w);
    WordThenSpaceNoConjunction(w);
    CleanTitleOfPlainText(w + " ", year);
  }

  /** A word followed by a space trims to text with no trailing ` y` for the last clean-up to take. */
  lemma WordThenSpaceNoConjunction(w: string)
    requires w != [] && forall i :: 0 <= i < |w| ==> IsAsciiAlnum(w[i])
    ensures var t := Trim(w + " ");
            !(|t| >= 2 && (t[|t| - 1] == 'y' || t[|t| - 1] == 'Y') && IsSpace(t[|t| - 2]))
  {
    WordThenSpace(w);
    assert |w| >= 2 ==> !IsSpace(w[|w| - 2]);
  }
}
