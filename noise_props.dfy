/**
 * Where the noise expressions of utils/parser.js can match: every match
 * opens at a `\b` followed by one of a few two-letter leads (or by a
 * resolution such as `1080p`), so text without such a spot passes noise
 * removal untouched; and, the other way round, every spot where a pattern's
 * text stands between two boundaries is matched, and the match becomes one
 * space.
 */
module NoiseProps {
  import opened Wrappers
  import opened JsString
  import opened MovieParser

  /** No match of `p` opens at any index in `[i, j)`. */
  predicate QuietBetween(p: NoisePattern, s: string, i: nat, j: nat)
    requires i <= j <= |s|
  {
    forall n :: i <= n < j ==> MatchAt(p, s, n).None?
  }

  /** `replace` only ever writes a blank or a character of the text it scans. */
  lemma {:induction false} ReplaceKeepsCharacters(p: NoisePattern, s: string, i: nat)
    requires i <= |s|
    ensures forall c :: c in ReplaceFrom(p, s, i) ==> c == ' ' || c in s[i..]
    decreases |s| - i
  {
    if i < |s| {
      match MatchAt(p, s, i)
      case Some(e) =>
        ReplaceKeepsCharacters(p, s, e);
        forall c | c in s[e..] ensures c in s[i..] {
          var n :| 0 <= n < |s[e..]| && s[e..][n] == c;
          assert s[i..][n + e - i] == c;
        }
      case None =>
        ReplaceKeepsCharacters(p, s, i + 1);
        assert s[i..] == [s[i]] + s[i + 1..];
    }
  }

  /** Where no match opens, `replace` copies one character. */
  lemma ReplaceCopies(p: NoisePattern, s: string, i: nat)
    requires i < |s| && MatchAt(p, s, i).None?
    ensures ReplaceFrom(p, s, i) == [s[i]] + ReplaceFrom(p, s, i + 1)
  {
  }

  /** Where no match opens, `replace` copies the text. */
  lemma {:induction false} ReplaceSkips(p: NoisePattern, s: string, i: nat, j: nat)
    requires i <= j <= |s| && QuietBetween(p, s, i, j)
    ensures ReplaceFrom(p, s, i) == s[i..j] + ReplaceFrom(p, s, j)
    decreases j - i
  {
    if i < j {
      ReplaceSkips(p, s, i + 1, j);
      calc {
        ReplaceFrom(p, s, i);
        { ReplaceCopies(p, s, i); }
        [s[i]] + ReplaceFrom(p, s, i + 1);
        [s[i]] + (s[i + 1..j] + ReplaceFrom(p, s, j));
        ([s[i]] + s[i + 1..j]) + ReplaceFrom(p, s, j);
        { assert [s[i]] + s[i + 1..j] == s[i..j]; }
        s[i..j] + ReplaceFrom(p, s, j);
      }
    }
  }

  /** `s[n..]` starts with the first two characters of `w`, ignoring case. */
  predicate LeadsWith(s: string, n: nat, w: string)
    requires |w| >= 2
  {
    n + 2 <= |s| && LowerAscii(s[n]) == LowerAscii(w[0]) && LowerAscii(s[n + 1]) == LowerAscii(w[1])
  }

  /** A `Word` match opens with the first two letters of one of its spellings. */
  lemma WordNeedsLead(forms: seq<Form>, s: string, n: nat)
    requires n <= |s| && forall k :: 0 <= k < |forms| ==> |forms[k]| >= 2
    ensures WordFormAt(forms, s, n).Some? ==> exists k :: 0 <= k < |forms| && LeadsWith(s, n, forms[k])
  {
    if WordFormAt(forms, s, n).Some? {
      var k :| 0 <= k < |forms| && MatchesIgnoringCase(s, n, forms[k]);
      var w := forms[k];
      assert MatchesIgnoringCase(s, n, w);
      assert LowerAscii(s[n + 1]) == LowerAscii(w[1]);
      assert LeadsWith(s, n, forms[k]);
    }
  }

  /** A `Spaced` match opens with the first two letters of a head, or, for an empty head, of the tail after white space. */
  lemma {:induction false} SpacedNeedsLead(heads: seq<string>, tail: Form, s: string, n: nat)
    requires n <= |s| && |tail| >= 2 && forall k :: 0 <= k < |heads| ==> heads[k] == [] || |heads[k]| >= 2
    ensures SpacedAt(heads, tail, s, n).Some? ==>
              exists k :: 0 <= k < |heads| &&
                if heads[k] == [] then LeadsWith(s, SkipSpaces(s, n), tail) else LeadsWith(s, n, heads[k])
    decreases |heads|
  {
    if heads != [] && SpacedAt(heads, tail, s, n).Some? {
      if MatchesIgnoringCase(s, n, heads[0]) && MatchesIgnoringCase(s, SkipSpaces(s, n + |heads[0]|), tail)
         && WordBoundary(s, SkipSpaces(s, n + |heads[0]|) + |tail|) {
        var j := SkipSpaces(s, n + |heads[0]|);
        if heads[0] == [] {
          assert LowerAscii(s[j + 1]) == LowerAscii(tail[1]);
          assert LeadsWith(s, SkipSpaces(s, n), tail);
        } else {
          assert LowerAscii(s[n + 1]) == LowerAscii(heads[0][1]);
          assert LeadsWith(s, n, heads[0]);
        }
      } else {
        SpacedNeedsLead(heads[1..], tail, s, n);
        var k :| 0 <= k < |heads[1..]| &&
                if heads[1..][k] == [] then LeadsWith(s, SkipSpaces(s, n), tail) else LeadsWith(s, n, heads[1..][k]);
        assert heads[1..][k] == heads[k + 1];
      }
    }
  }

  /** The leading pairs of letters of the spellings in `NOISE_PATTERNS` (other than the resolutions). */
  predicate NoisePair(a: char, b: char) {
    || (a == '4' && b == 'k') || (a == 'f' && b == 'u') || (a == 'u' && b == 'h') || (a == 'b' && b == 'l')
    || (a == 'w' && b == 'e') || (a == 'h' && (b == 'd' || b == '.' || b == '2' || b == 'e'))
    || (a == 'd' && (b == 'v' || b == 'u' || b == 'i')) || (a == 'x' && b == '2') || (a == 'l' && b == 'a')
    || (a == 'c' && b == 'a') || (a == 's' && b == 'u') || (a == 'm' && b == 'u') || (a == 'e' && b == 'x')
  }

  /** Where some pattern of `NOISE_PATTERNS` may open a match. */
  predicate NoiseMayOpen(s: string, n: nat)
    requires n <= |s|
  {
    && WordBoundary(s, n)
    && (|| ResolutionAt(s, n).Some?
        || (n + 2 <= |s| && NoisePair(LowerAscii(s[n]), LowerAscii(s[n + 1])))
        || (var j := SkipSpaces(s, n); j + 2 <= |s| && LowerAscii(s[j]) == 'h' && LowerAscii(s[j + 1]) == 'd'))
  }

  /** Every spelling of `p` opens with a `NoisePair`, except an empty head before a tail opening with `hd`. */
  predicate Covered(p: NoisePattern) {
    match p
    case Resolution => true
    case Word(forms) =>
      forall i :: 0 <= i < |forms| ==> |forms[i]| >= 2 && NoisePair(LowerAscii(forms[i][0]), LowerAscii(forms[i][1]))
    case Spaced(heads, tail) =>
      |tail| >= 2 && forall i :: 0 <= i < |heads| ==>
        if heads[i] == [] then LowerAscii(tail[0]) == 'h' && LowerAscii(tail[1]) == 'd'
        else |heads[i]| >= 2 && NoisePair(LowerAscii(heads[i][0]), LowerAscii(heads[i][1]))
  }

  predicate AllCovered(ps: seq<NoisePattern>) {
    forall k :: 0 <= k < |ps| ==> Covered(ps[k])
  }

  /** `NOISE_PATTERNS` is made of covered patterns only. */
  lemma NoisePatternsCovered()
    ensures AllCovered(NOISE_PATTERNS)
  {
    forall k | 0 <= k < |NOISE_PATTERNS| ensures Covered(NOISE_PATTERNS[k]) {
      if k < 10 {
        EarlyPatternsCovered(k);
      } else {
        LatePatternsCovered(k);
      }
    }
  }

  /** The resolution, 4K, HD, UHD and release-source patterns are covered. */
  lemma EarlyPatternsCovered(k: nat)
    requires k < 10
    ensures Covered(NOISE_PATTERNS[k])
  {
  }

  /** The codec, language and edition patterns are covered. */
  lemma LatePatternsCovered(k: nat)
    requires 10 <= k < |NOISE_PATTERNS|
    ensures Covered(NOISE_PATTERNS[k])
  {
  }

  /** A covered pattern only matches where `NoiseMayOpen` holds. */
  lemma CoveredNeedsLead(p: NoisePattern, s: string, n: nat)
    requires n <= |s| && Covered(p)
    ensures MatchAt(p, s, n).Some? ==> NoiseMayOpen(s, n)
  {
    if MatchAt(p, s, n).Some? {
      match p
      case Resolution =>
      case Word(forms) =>
        WordNeedsLead(forms, s, n);
        var i :| 0 <= i < |forms| && LeadsWith(s, n, forms[i]);
      case Spaced(heads, tail) =>
        SpacedNeedsLead(heads, tail, s, n);
        var i :| 0 <= i < |heads| &&
          if heads[i] == [] then LeadsWith(s, SkipSpaces(s, n), tail) else LeadsWith(s, n, heads[i]);
    }
  }

  /** Text where no pattern of `NOISE_PATTERNS` can open a match survives noise removal unchanged. */
  lemma NoiseFreeKept(s: string)
    requires forall m :: 0 <= m < |s| ==> !NoiseMayOpen(s, m)
    ensures RemoveNoise(NOISE_PATTERNS, |NOISE_PATTERNS|, s) == s
  {
    NoisePatternsCovered();
    CoveredFreeKept(NOISE_PATTERNS, |NOISE_PATTERNS|, s);
  }

  /** Covered patterns leave text without a `NoiseMayOpen` spot as it is. */
  lemma {:induction false} CoveredFreeKept(ps: seq<NoisePattern>, n: nat, s: string)
    requires n <= |ps| && AllCovered(ps)
    requires forall m :: 0 <= m < |s| ==> !NoiseMayOpen(s, m)
    ensures RemoveNoise(ps, n, s) == s
  {
    if n > 0 {
      CoveredFreeKept(ps, n - 1, s);
      var p := ps[n - 1];
      forall m | 0 <= m < |s| ensures MatchAt(p, s, m).None? {
        CoveredNeedsLead(p, s, m);
      }
      ReplaceSkips(p, s, 0, |s|);
    }
  }

  // ---------------------------------------------------------------------
  // Completeness: what the patterns do match
  // ---------------------------------------------------------------------

  /** `\b\d{3,4}p\b` matches three or four digits and a `p` that stand between two boundaries. */
  lemma ResolutionComplete(s: string, i: nat, d: nat)
    requires (d == 3 || d == 4) && i + d < |s|
    requires WordBoundary(s, i) && WordBoundary(s, i + d + 1)
    requires forall n :: i <= n < i + d ==> IsDigit(s[n])
    requires s[i + d] == 'p' || s[i + d] == 'P'
    ensures MatchAt(Resolution, s, i) == Some(i + d + 1)
  {
    assert DigitsEnd(s, i) == i + d;
  }

  /** Spelling `w` stands at `i`, ignoring case, and is followed by a boundary. */
  predicate FormFits(s: string, i: nat, w: string) {
    MatchesIgnoringCase(s, i, w) && WordBoundary(s, i + |w|)
  }

  /** `\b(form1|form2|...)\b` matches with the first spelling that fits. */
  lemma {:induction false} WordFormComplete(forms: seq<Form>, s: string, i: nat, k: nat)
    requires i <= |s| && k < |forms| && FormFits(s, i, forms[k])
    requires forall j :: 0 <= j < k ==> !FormFits(s, i, forms[j])
    ensures WordFormAt(forms, s, i) == Some(i + |forms[k]|)
    ensures WordBoundary(s, i) ==> MatchAt(Word(forms), s, i) == Some(i + |forms[k]|)
    decreases k
  {
    if k > 0 {
      assert !FormFits(s, i, forms[0]);
      forall j | 0 <= j < k - 1 ensures !FormFits(s, i, forms[1..][j]) {
        assert forms[1..][j] == forms[j + 1];
      }
      WordFormComplete(forms[1..], s, i, k - 1);
    }
  }

  /** Head `head`, then white space, then `tail` followed by a boundary, stand at `i`. */
  predicate SpacedFits(head: string, tail: Form, s: string, i: nat)
    requires i <= |s|
  {
    && MatchesIgnoringCase(s, i, head)
    && MatchesIgnoringCase(s, SkipSpaces(s, i + |head|), tail)
    && WordBoundary(s, SkipSpaces(s, i + |head|) + |tail|)
  }

  /** `\b(head1|head2|...)\s*tail\b` matches with the first head after which the rest fits. */
  lemma {:induction false} SpacedComplete(heads: seq<string>, tail: Form, s: string, i: nat, k: nat)
    requires i <= |s| && k < |heads| && SpacedFits(heads[k], tail, s, i)
    requires forall j :: 0 <= j < k ==> !SpacedFits(heads[j], tail, s, i)
    ensures SpacedAt(heads, tail, s, i) == Some(SkipSpaces(s, i + |heads[k]|) + |tail|)
    ensures WordBoundary(s, i) ==> MatchAt(Spaced(heads, tail), s, i) == Some(SkipSpaces(s, i + |heads[k]|) + |tail|)
    decreases k
  {
    if k > 0 {
      assert !SpacedFits(heads[0], tail, s, i);
      forall j | 0 <= j < k - 1 ensures !SpacedFits(heads[1..][j], tail, s, i) {
        assert heads[1..][j] == heads[j + 1];
      }
      SpacedComplete(heads[1..], tail, s, i, k - 1);
    }
  }

  /** The leftmost match from `i` on becomes one space; the text before it is copied and the scan goes on after it. */
  lemma ReplaceAtMatch(p: NoisePattern, s: string, i: nat, j: nat, e: nat)
    requires i <= j < |s| && QuietBetween(p, s, i, j) && MatchAt(p, s, j) == Some(e)
    ensures ReplaceFrom(p, s, i) == s[i..j] + " " + ReplaceFrom(p, s, e)
  {
    ReplaceSkips(p, s, i, j);
  }

  /** A text with a single match, spanning `[j, e)`, has exactly that span replaced by one space. */
  lemma ReplaceOneMatch(p: NoisePattern, s: string, j: nat, e: nat)
    requires j < |s| && QuietBetween(p, s, 0, j) && MatchAt(p, s, j) == Some(e)
    requires QuietBetween(p, s, e, |s|)
    ensures Replace(p, s) == s[..j] + " " + s[e..]
  {
    ReplaceAtMatch(p, s, 0, j, e);
    ReplaceSkips(p, s, e, |s|);
    assert s[e..|s|] == s[e..];
  }

  /** A text without a match of `p` is left as it is. */
  lemma ReplaceNoMatch(p: NoisePattern, s: string)
    requires QuietBetween(p, s, 0, |s|)
    ensures Replace(p, s) == s
  {
    ReplaceSkips(p, s, 0, |s|);
  }

  /** Patterns `lo` to `hi - 1` that find no match in the text left by the earlier ones leave it unchanged. */
  lemma {:induction false} RemoveNoiseQuiet(ps: seq<NoisePattern>, lo: nat, hi: nat, s: string)
    requires lo <= hi <= |ps|
    requires forall k :: lo <= k < hi ==>
               QuietBetween(ps[k], RemoveNoise(ps, lo, s), 0, |RemoveNoise(ps, lo, s)|)
    ensures RemoveNoise(ps, hi, s) == RemoveNoise(ps, lo, s)
    decreases hi
  {
    if lo < hi {
      RemoveNoiseQuiet(ps, lo, hi - 1, s);
      ReplaceNoMatch(ps[hi - 1], RemoveNoise(ps, lo, s));
    }
  }

  /** Where `NoiseMayOpen` fails, no pattern of `NOISE_PATTERNS` matches. */
  lemma NoMatchWithoutLead(s: string, n: nat, k: nat)
    requires n <= |s| && k < |NOISE_PATTERNS| && !NoiseMayOpen(s, n)
    ensures MatchAt(NOISE_PATTERNS[k], s, n).None?
  {
    NoisePatternsCovered();
    CoveredNeedsLead(NOISE_PATTERNS[k], s, n);
  }

  /** No spelling of `forms` starts with the letter at `n`, so `\b(form1|form2|...)\b` cannot match there. */
  lemma {:induction false} WordMissesFirst(forms: seq<Form>, s: string, n: nat)
    requires n < |s| && forall k :: 0 <= k < |forms| ==> LowerAscii(forms[k][0]) != LowerAscii(s[n])
    ensures WordFormAt(forms, s, n).None? && MatchAt(Word(forms), s, n).None?
    decreases |forms|
  {
    if forms != [] {
      assert !MatchesIgnoringCase(s, n, forms[0]);
      forall k | 0 <= k < |forms[1..]| ensures LowerAscii(forms[1..][k][0]) != LowerAscii(s[n]) {
        assert forms[1..][k] == forms[k + 1];
      }
      WordMissesFirst(forms[1..], s, n);
    }
  }

  /** The first letter of a spaced spelling: its head's, or, for an empty head, its tail's. */
  function SpacedFirst(head: string, tail: Form): char {
    if head == [] then tail[0] else head[0]
  }

  /** No spaced spelling starts with the letter at `n`, which is not white space, so the pattern cannot match there. */
  lemma {:induction false} SpacedMissesFirst(heads: seq<string>, tail: Form, s: string, n: nat)
    requires n < |s| && !IsSpace(s[n])
    requires forall k :: 0 <= k < |heads| ==> LowerAscii(SpacedFirst(heads[k], tail)) != LowerAscii(s[n])
    ensures SpacedAt(heads, tail, s, n).None? && MatchAt(Spaced(heads, tail), s, n).None?
    decreases |heads|
  {
    if heads != [] {
      if heads[0] == [] {
        assert SkipSpaces(s, n) == n;
        assert !MatchesIgnoringCase(s, n, tail);
      } else {
        assert !MatchesIgnoringCase(s, n, heads[0]);
      }
      forall k | 0 <= k < |heads[1..]| ensures LowerAscii(SpacedFirst(heads[1..][k], tail)) != LowerAscii(s[n]) {
        assert heads[1..][k] == heads[k + 1];
      }
      SpacedMissesFirst(heads[1..], tail, s, n);
    }
  }

  /** No spelling of `p` starts with letter `c`; a resolution starts with a digit. */
  predicate NoSpellingStartsWith(p: NoisePattern, c: char) {
    match p
    case Resolution => !IsDigit(c)
    case Word(forms) => forall k :: 0 <= k < |forms| ==> LowerAscii(forms[k][0]) != c
    case Spaced(heads, tail) => forall k :: 0 <= k < |heads| ==> LowerAscii(SpacedFirst(heads[k], tail)) != c
  }

  /** A pattern cannot match at a character that is not white space and that none of its spellings starts with. */
  lemma MissesFirst(p: NoisePattern, s: string, n: nat)
    requires n < |s| && !IsSpace(s[n]) && NoSpellingStartsWith(p, LowerAscii(s[n]))
    ensures MatchAt(p, s, n).None?
  {
    match p
    case Resolution =>
      assert !IsDigit(s[n]);
      assert DigitsEnd(s, n) == n;
    case Word(forms) =>
      WordMissesFirst(forms, s, n);
    case Spaced(heads, tail) =>
      SpacedMissesFirst(heads, tail, s, n);
  }
}
