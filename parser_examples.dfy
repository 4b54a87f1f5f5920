/**
 * Worked examples of `MovieParser.parse`, derived from the general lemmas
 * rather than by unfolding the whole pipeline.
 */
module MovieParserExamples {
  import opened Wrappers
  import opened JsString
  import opened MovieParser
  import opened NoiseProps
  import opened MovieParserProps

  /** No noise pattern can open a match in `"Anaconda "`. */
  lemma AnacondaIsNoiseFree()
    ensures forall m :: 0 <= m < |"Anaconda "| ==> !NoiseMayOpen("Anaconda ", m)
  {
    var s := "Anaconda ";
    forall m | 0 <= m < |s| ensures !NoiseMayOpen(s, m) {
      if m == 0 {
        assert s[0] == 'A' && s[1] == 'n';
        assert SkipSpaces(s, 0) == 0;
      } else if m == 8 {
        assert SkipSpaces(s, 8) == 9;
      } else {
        assert !WordBoundary(s, m);
      }
    }
  }

  /** The clean-up stages leave the one-word title with its trailing space trimmed. */
  lemma AnacondaCleanTitle()
    ensures CleanTitle("Anaconda ", Some("2025")) == "Anaconda"
  {
    AnacondaIsNoiseFree();
    assert "Anaconda " == "Anaconda" + " ";
    CleanTitleOfWord("Anaconda", Some("2025"));
  }

  /** The structured year cuts the title; the noise after it never reaches the clean-up. */
  lemma AnacondaExample()
    ensures Normalize("Anaconda " + "(2025)" + " HD 1080p y 720p Latino Castellano", DefaultOptions)
            == Parsed("Anaconda", Some("2025"))
  {
    assert "Anaconda " + "(2025)" == "Anaconda " + ['('] + "2025" + [')'];
    StructuredYearCutsText("Anaconda ", '(', "2025", ')', " HD 1080p y 720p Latino Castellano");
    AnacondaCleanTitle();
  }

  // ---------------------------------------------------------------------
  // `Matrix.1999.1080p.BluRay.x264`: no structured year, so the loose year
  // is recorded and the whole text is cleaned; three noise patterns match
  // ---------------------------------------------------------------------

  const MatrixTitle: string := "Matrix.1999."
  const MatrixRaw: string := MatrixTitle + "1080p" + ".BluRay.x264"
  /** After `\b\d{3,4}p\b`. */
  const MatrixNoResolution: string := MatrixTitle + " ." + "BluRay" + ".x264"
  /** After `\bBluRay\b`. */
  const MatrixNoBluRay: string := MatrixTitle + " . ." + "x264"
  /** After `\bx26[45]\b`: what the later patterns leave alone. */
  const MatrixNoCodec: string := MatrixTitle + " . . "
  /** After the separator and white-space clean-up and `trim()`. */
  const MatrixWithYear: string := "Matrix" + " " + "1999"

  /** No noise pattern can open in the `Matrix.1999.` part, whatever follows it. */
  lemma MatrixTitleIsNoiseFree(s: string, m: nat)
    requires |MatrixTitle| <= |s| && s[..|MatrixTitle|] == MatrixTitle && m < |MatrixTitle|
    ensures !NoiseMayOpen(s, m)
  {
    assert s[..12] == MatrixTitle;
    assert s[0] == 'M' && s[1] == 'a' && s[6] == '.' && s[7] == '1' && s[11] == '.';
    if m == 0 {
      assert SkipSpaces(s, 0) == 0;
      assert DigitsEnd(s, 0) == 0;
    } else if m == 6 {
      assert SkipSpaces(s, 6) == 6;
      assert DigitsEnd(s, 6) == 6;
    } else if m == 7 {
      assert SkipSpaces(s, 7) == 7;
      assert DigitsEnd(s, 7) == 11;
    } else if m == 11 {
      assert SkipSpaces(s, 11) == 11;
      assert DigitsEnd(s, 11) == 11;
    } else {
      assert !WordBoundary(s, m);
    }
  }

  /** Before `s[from]`, which is the `Matrix.1999.` part, pattern `k` finds no match. */
  lemma MatrixTitleQuiet(s: string, k: nat, from: nat)
    requires |MatrixTitle| <= |s| && s[..|MatrixTitle|] == MatrixTitle
    requires k < |NOISE_PATTERNS| && from <= |MatrixTitle|
    ensures QuietBetween(NOISE_PATTERNS[k], s, 0, from)
  {
    forall m | 0 <= m < from ensures MatchAt(NOISE_PATTERNS[k], s, m).None? {
      MatrixTitleIsNoiseFree(s, m);
      NoMatchWithoutLead(s, m, k);
    }
  }

  /** `1080p` stands between two boundaries at index 12. */
  lemma MatrixResolutionAt()
    ensures MatchAt(Resolution, MatrixRaw, 12) == Some(17)
  {
    var s := MatrixRaw;
    assert s[11] == '.' && s[12] == '1' && s[13] == '0' && s[14] == '8' && s[15] == '0' && s[16] == 'p' && s[17] == '.';
    ResolutionComplete(s, 12, 4);
  }

  /** No other resolution follows `1080p`. */
  lemma MatrixResolutionQuietAfter()
    ensures QuietBetween(Resolution, MatrixRaw, 17, |MatrixRaw|)
  {
    var s := MatrixRaw;
    forall m | 17 <= m < |s| ensures MatchAt(Resolution, s, m).None? {
      if WordBoundary(s, m) {
        assert m == 17 || m == 18 || m == 24 || m == 25;
        assert !IsDigit(s[m]);
      }
    }
  }

  /** `1080p` is the one match of `\b\d{3,4}p\b`. */
  lemma MatrixResolution()
    ensures Replace(Resolution, MatrixRaw) == MatrixNoResolution
  {
    var s := MatrixRaw;
    assert s[..12] == MatrixTitle;
    MatrixResolutionAt();
    MatrixTitleQuiet(s, 0, 12);
    MatrixResolutionQuietAfter();
    ReplaceOneMatch(Resolution, s, 12, 17);
    assert s[17..] == "." + "BluRay" + ".x264";
  }

  /** In the text left by the resolution pattern, noise can only open at `BluRay` and at `x264`. */
  lemma MatrixNoResolutionLeads(m: nat)
    requires m < |MatrixNoResolution| && m != 14 && m != 21
    ensures !NoiseMayOpen(MatrixNoResolution, m)
  {
    var t := MatrixNoResolution;
    assert t[..12] == MatrixTitle;
    if m < 12 {
      MatrixTitleIsNoiseFree(t, m);
    } else {
      assert t[12] == ' ' && t[13] == '.' && t[20] == '.' && t[21] == 'x';
      if m == 20 {
        assert SkipSpaces(t, 20) == 20;
        assert DigitsEnd(t, 20) == 20;
      } else {
        assert !WordBoundary(t, m);
      }
    }
  }

  /** `4k`, `(Full)?\s*HD` and `UHD` cannot open at `BluRay` or at `x264`. */
  lemma MatrixNoResolutionSpots(k: nat, m: nat)
    requires 1 <= k < 4 && (m == 14 || m == 21)
    ensures MatchAt(NOISE_PATTERNS[k], MatrixNoResolution, m).None?
  {
    var t := MatrixNoResolution;
    assert t[14] == 'B' && t[21] == 'x';
    MissesFirst(NOISE_PATTERNS[k], t, m);
  }

  /** `4k`, `(Full)?\s*HD` and `UHD` find nothing after the resolution is gone. */
  lemma MatrixQuietAfterResolution(k: nat)
    requires 1 <= k < 4
    ensures QuietBetween(NOISE_PATTERNS[k], MatrixNoResolution, 0, |MatrixNoResolution|)
  {
    var t := MatrixNoResolution;
    forall m | 0 <= m < |t| ensures MatchAt(NOISE_PATTERNS[k], t, m).None? {
      if m == 14 || m == 21 {
        MatrixNoResolutionSpots(k, m);
      } else {
        MatrixNoResolutionLeads(m);
        NoMatchWithoutLead(t, m, k);
      }
    }
  }

  /** `BluRay` stands between two boundaries at index 14. */
  lemma MatrixBluRayAt()
    ensures MatchAt(NOISE_PATTERNS[4], MatrixNoResolution, 14) == Some(20)
  {
    var t := MatrixNoResolution;
    assert NOISE_PATTERNS[4] == Word(["bluray"]);
    assert t[13] == '.' && t[14] == 'B' && t[15] == 'l' && t[16] == 'u' && t[17] == 'R' && t[18] == 'a' && t[19] == 'y' && t[20] == '.';
    assert FormFits(t, 14, "bluray");
    WordFormComplete(["bluray"], t, 14, 0);
  }

  /** `\bBluRay\b` matches nowhere else. */
  lemma MatrixBluRayQuiet()
    ensures QuietBetween(NOISE_PATTERNS[4], MatrixNoResolution, 0, 14)
    ensures QuietBetween(NOISE_PATTERNS[4], MatrixNoResolution, 20, |MatrixNoResolution|)
  {
    var t := MatrixNoResolution;
    forall m | 0 <= m < |t| && m != 14 ensures MatchAt(NOISE_PATTERNS[4], t, m).None? {
      if m == 21 {
        assert t[21] == 'x';
        MissesFirst(NOISE_PATTERNS[4], t, m);
      } else {
        MatrixNoResolutionLeads(m);
        NoMatchWithoutLead(t, m, 4);
      }
    }
  }

  /** `BluRay` is the one match of `\bBluRay\b`. */
  lemma MatrixBluRay()
    ensures Replace(NOISE_PATTERNS[4], MatrixNoResolution) == MatrixNoBluRay
  {
    var t := MatrixNoResolution;
    MatrixBluRayQuiet();
    MatrixBluRayAt();
    ReplaceOneMatch(NOISE_PATTERNS[4], t, 14, 20);
    assert t[..14] == MatrixTitle + " .";
    assert t[20..] == ".x264";
  }

  /** In the text left by `\bBluRay\b`, noise can only open at `x264`. */
  lemma MatrixNoBluRayLeads(m: nat)
    requires m < |MatrixNoBluRay| && m != 16
    ensures !NoiseMayOpen(MatrixNoBluRay, m)
  {
    var t := MatrixNoBluRay;
    assert t[..12] == MatrixTitle;
    if m < 12 {
      MatrixTitleIsNoiseFree(t, m);
    } else {
      assert t[12] == ' ' && t[13] == '.' && t[14] == ' ' && t[15] == '.' && t[16] == 'x';
      assert !WordBoundary(t, m);
    }
  }

  /** The patterns from `WEB-?DL` to `H\.?26[45]` find nothing once `BluRay` is gone. */
  lemma MatrixQuietAfterBluRay(k: nat)
    requires 5 <= k < 11
    ensures QuietBetween(NOISE_PATTERNS[k], MatrixNoBluRay, 0, |MatrixNoBluRay|)
  {
    var t := MatrixNoBluRay;
    forall m | 0 <= m < |t| ensures MatchAt(NOISE_PATTERNS[k], t, m).None? {
      if m == 16 {
        assert t[16] == 'x';
        MissesFirst(NOISE_PATTERNS[k], t, m);
      } else {
        MatrixNoBluRayLeads(m);
        NoMatchWithoutLead(t, m, k);
      }
    }
  }

  /** `x264` is the one match of `\bx26[45]\b`. */
  lemma MatrixCodec()
    ensures Replace(NOISE_PATTERNS[11], MatrixNoBluRay) == MatrixNoCodec
  {
    var t := MatrixNoBluRay;
    forall m | 0 <= m < 16 ensures MatchAt(NOISE_PATTERNS[11], t, m).None? {
      MatrixNoBluRayLeads(m);
      NoMatchWithoutLead(t, m, 11);
    }
    assert NOISE_PATTERNS[11] == Word(["x264", "x265"]);
    assert t[15] == '.' && t[16] == 'x' && t[17] == '2' && t[18] == '6' && t[19] == '4' && |t| == 20;
    assert FormFits(t, 16, "x264");
    WordFormComplete(["x264", "x265"], t, 16, 0);
    ReplaceOneMatch(NOISE_PATTERNS[11], t, 16, 20);
    assert t[..16] == MatrixTitle + " . .";
  }

  /** The patterns from `HEVC` to `Director'?s\s*Cut` find nothing in what is left. */
  lemma MatrixQuietAfterCodec(k: nat)
    requires 12 <= k < 20
    ensures QuietBetween(NOISE_PATTERNS[k], MatrixNoCodec, 0, |MatrixNoCodec|)
  {
    var t := MatrixNoCodec;
    assert t[..12] == MatrixTitle;
    forall m | 0 <= m < |t| ensures MatchAt(NOISE_PATTERNS[k], t, m).None? {
      if m < 12 {
        MatrixTitleIsNoiseFree(t, m);
      } else {
        assert t[12] == ' ' && t[13] == '.' && t[14] == ' ' && t[15] == '.' && t[16] == ' ';
        assert !WordBoundary(t, m);
      }
      NoMatchWithoutLead(t, m, k);
    }
  }

  /** The noise stage turns `Matrix.1999.1080p.BluRay.x264` into `Matrix.1999. . . `. */
  lemma MatrixNoise()
    ensures RemoveNoise(NOISE_PATTERNS, |NOISE_PATTERNS|, MatrixRaw) == MatrixNoCodec
  {
    var ps, s := NOISE_PATTERNS, MatrixRaw;
    MatrixResolution();
    assert RemoveNoise(ps, 1, s) == MatrixNoResolution;
    forall k | 1 <= k < 4 ensures QuietBetween(ps[k], RemoveNoise(ps, 1, s), 0, |RemoveNoise(ps, 1, s)|) {
      MatrixQuietAfterResolution(k);
    }
    RemoveNoiseQuiet(ps, 1, 4, s);
    MatrixBluRay();
    assert RemoveNoise(ps, 5, s) == MatrixNoBluRay;
    forall k | 5 <= k < 11 ensures QuietBetween(ps[k], RemoveNoise(ps, 5, s), 0, |RemoveNoise(ps, 5, s)|) {
      MatrixQuietAfterBluRay(k);
    }
    RemoveNoiseQuiet(ps, 5, 11, s);
    MatrixCodec();
    assert RemoveNoise(ps, 12, s) == MatrixNoCodec;
    forall k | 12 <= k < 20 ensures QuietBetween(ps[k], RemoveNoise(ps, 12, s), 0, |RemoveNoise(ps, 12, s)|) {
      MatrixQuietAfterCodec(k);
    }
    RemoveNoiseQuiet(ps, 12, 20, s);
  }

  /** Separators become spaces. */
  lemma MatrixSeparators()
    ensures SeparatorsToSpaces(MatrixNoCodec) == "Matrix" + ([' '] + ("1999" + "      "))
  {
    var u := SeparatorsToSpaces(MatrixNoCodec);
    var v := "Matrix" + ([' '] + ("1999" + "      "));
    assert |u| == |v|;
    forall i | 0 <= i < |u| ensures u[i] == v[i] {
    }
  }

  /** A word followed by a run of white space collapses to the word and one space. */
  lemma WordThenSpaces(w: string, r: string)
    requires forall i :: 0 <= i < |w| ==> !IsSpace(w[i])
    requires r != [] && AllSpaces(r)
    ensures CollapseSpaces(w + r) == w + " "
  {
    assert r + [] == r;
    CollapseSpacesRun(r, []);
    CollapseSpacesCopies(w, r);
  }

  /** Two words, one space between them and a run of white space after them collapse to the words and one space each. */
  lemma CollapseTwoWords(w1: string, w2: string, r: string)
    requires forall i :: 0 <= i < |w1| ==> !IsSpace(w1[i])
    requires w2 != [] && forall i :: 0 <= i < |w2| ==> !IsSpace(w2[i])
    requires r != [] && AllSpaces(r)
    ensures CollapseSpaces(w1 + ([' '] + (w2 + r))) == w1 + ([' '] + (w2 + " "))
  {
    WordThenSpaces(w2, r);
    assert (w2 + r)[0] == w2[0];
    CollapseSpacesRun([' '], w2 + r);
    CollapseSpacesCopies(w1, [' '] + (w2 + r));
  }

  /** Separators become spaces, and the run of six that ends the text collapses to one. */
  lemma MatrixSpacing()
    ensures CollapseSpaces(SeparatorsToSpaces(MatrixNoCodec)) == MatrixWithYear + " "
  {
    MatrixSeparators();
    CollapseTwoWords("Matrix", "1999", "      ");
    assert "Matrix" + ([' '] + ("1999" + " ")) == MatrixWithYear + " ";
  }

  /** `Matrix 1999` is tidy and ends with its year. */
  lemma MatrixWithYearTidy()
    ensures EndsWith(MatrixWithYear, "1999") && Tidy(MatrixWithYear)
  {
    var t := MatrixWithYear;
    assert t[7..] == "1999";
    assert forall i :: 0 <= i < |t| ==> (IsSpace(t[i]) <==> i == 6) && !IsSeparator(t[i]);
  }

  /** A boundary stands before the trailing `1999`, so it goes, with the space before it. */
  lemma MatrixDropYear()
    ensures EndsWith(MatrixWithYear, "1999") && Tidy(MatrixWithYear)
    ensures DropTrailingYear(MatrixWithYear, "1999") == "Matrix"
  {
    MatrixWithYearTidy();
    var t := MatrixWithYear;
    assert t[6] == ' ' && t[7] == '1';
    assert WordBoundary(t, |t| - 4);
    var r := DropTrailingYear(t, "1999");
    assert r != t[..7] by {
      assert t[..7][6] == ' ' && Trimmed(r);
    }
    assert t[..6] == "Matrix";
  }

  /** The clean-up leaves `Matrix`. */
  lemma MatrixCleanTitle()
    ensures CleanTitle(MatrixRaw, Some("1999")) == "Matrix"
  {
    MatrixNoise();
    MatrixSpacing();
    TrimTrailingSpace(MatrixWithYear);
    MatrixDropYear();
  }

  /** `1999` is the first loose year, and no `(` or `[` stands anywhere. */
  lemma MatrixYear()
    ensures FindStructured(MatrixRaw, 0).None?
    ensures LooseYearAt(MatrixRaw, 7) && forall q :: 0 <= q < 7 ==> !LooseYearAt(MatrixRaw, q)
    ensures YearText(MatrixRaw, 7) == "1999"
  {
    var s := MatrixRaw;
    NoOpenerNoStructured(s, 0, |s|);
    FindStructuredSkips(s, 0, |s|);
    assert s[6] == '.' && s[7] == '1' && s[8] == '9' && s[9] == '9' && s[10] == '9' && s[11] == '.';
    assert s[7..11] == "1999";
  }

  /** `parse('Matrix.1999.1080p.BluRay.x264')` gives the title `Matrix` and the year `1999`. */
  lemma MatrixExample()
    ensures Normalize(MatrixRaw, DefaultOptions) == Parsed("Matrix", Some("1999"))
  {
    MatrixYear();
    LooseYearKeepsText(MatrixRaw, 7);
    MatrixCleanTitle();
  }
}
