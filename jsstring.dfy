/**
 * The pieces of JavaScript's string semantics that the scripts rely on:
 * the `\s`, `\d` and `\w` character classes of non-Unicode regular
 * expressions, `trim`, `includes`, `startsWith` and `endsWith`.
 */
module JsString {

  /** LineTerminator: the characters `.` in a regular expression does not match. */
  predicate IsLineTerminator(c: char) {
    c == '\n' || c == '\r' || c == '\U{2028}' || c == '\U{2029}'
  }

  /**
   * WhiteSpace or LineTerminator: what `\s` matches and what `trim` removes.
   * Below U+00A0 these are the space and U+0009..U+000D (tab, line feed,
   * vertical tab, form feed, carriage return); the rest are listed.
   */
  predicate IsSpace(c: char)
    ensures IsLineTerminator(c) ==> IsSpace(c)
  {
    if c <= ' ' then c == ' ' || '\t' <= c <= '\r'
    else if c < '\U{A0}' then false
    else
      || c == '\U{A0}' || c == '\U{1680}' || ('\U{2000}' <= c <= '\U{200A}')
      || c == '\U{2028}' || c == '\U{2029}' || c == '\U{202F}' || c == '\U{205F}'
      || c == '\U{3000}' || c == '\U{FEFF}'
  }

  /** `\d` */
  predicate IsDigit(c: char) {
    '0' <= c <= '9'
  }

  predicate IsAsciiAlnum(c: char) {
    ('a' <= c <= 'z') || ('A' <= c <= 'Z') || IsDigit(c)
  }

  /** `\w`, the characters that decide where `\b` holds. */
  predicate IsWordChar(c: char) {
    IsAsciiAlnum(c) || c == '_'
  }

  /** Case folding of ASCII letters; every other character is left alone. */
  function LowerAscii(c: char): (r: char)
    ensures 'A' <= c <= 'Z' ==> 'a' <= r <= 'z' && r as int == c as int + 32
    ensures !('A' <= c <= 'Z') ==> r == c
  {
    if 'A' <= c <= 'Z' then (c as int + 32) as char else c
  }

  function LowerAsciiString(s: string): (r: string)
    ensures |r| == |s|
    ensures forall i :: 0 <= i < |s| ==> r[i] == LowerAscii(s[i])
  {
    seq(|s|, i requires 0 <= i < |s| => LowerAscii(s[i]))
  }

  /** True when `s[i..]` starts with `w`, comparing ASCII letters without regard to case (the `i` flag). */
  predicate MatchesIgnoringCase(s: string, i: nat, w: string) {
    i + |w| <= |s| && forall k :: 0 <= k < |w| ==> LowerAscii(s[i + k]) == LowerAscii(w[k])
  }

  /** `\b` at position `i` of `s`. */
  predicate WordBoundary(s: string, i: nat)
    requires i <= |s|
  {
    (i > 0 && IsWordChar(s[i - 1])) != (i < |s| && IsWordChar(s[i]))
  }

  /** The end of the run of `\s` characters that starts at `i` (greedy `\s*`). */
  function SkipSpaces(s: string, i: nat): (j: nat)
    requires i <= |s|
    ensures i <= j <= |s|
    ensures forall k :: i <= k < j ==> IsSpace(s[k])
    ensures j == |s| || !IsSpace(s[j])
    decreases |s| - i
  {
    if i < |s| && IsSpace(s[i]) then SkipSpaces(s, i + 1) else i
  }

  /** `SkipSpaces` stops at the first character that is not white space. */
  lemma {:induction false} SkipSpacesTo(s: string, i: nat, j: nat)
    requires i <= j <= |s|
    requires forall k :: i <= k < j ==> IsSpace(s[k])
    requires j == |s| || !IsSpace(s[j])
    ensures SkipSpaces(s, i) == j
    decreases j - i
  {
    if i < j {
      SkipSpacesTo(s, i + 1, j);
    }
  }

  predicate AllSpaces(s: string) {
    forall k :: 0 <= k < |s| ==> IsSpace(s[k])
  }

  /** `s.trimStart()` */
  function TrimStart(s: string): (r: string)
    ensures |r| <= |s| && r == s[|s| - |r|..]
    ensures AllSpaces(s[..|s| - |r|])
    ensures r == [] || !IsSpace(r[0])
  {
    s[SkipSpaces(s, 0)..]
  }

  /** `s.trimEnd()` */
  function TrimEnd(s: string): (r: string)
    ensures |r| <= |s| && r == s[..|r|]
    ensures AllSpaces(s[|r|..])
    ensures r == [] || !IsSpace(r[|r| - 1])
  {
    if s != [] && IsSpace(s[|s| - 1]) then TrimEnd(s[..|s| - 1]) else s
  }

  /** `s.trim()`: the part of `s` between its leading and its trailing white space. */
  function Trim(s: string): (r: string)
    ensures |r| <= |s|
    ensures r == [] || (!IsSpace(r[0]) && !IsSpace(r[|r| - 1]))
    ensures var i := SkipSpaces(s, 0);
              i + |r| <= |s| && r == s[i..i + |r|] && forall k :: i + |r| <= k < |s| ==> IsSpace(s[k])
  {
    var t := TrimStart(s);
    var r := TrimEnd(t);
    var i := SkipSpaces(s, 0);
    assert t == s[i..] && r == t[..|r|];
    assert r == s[i..i + |r|] && t[|r|..] == s[i + |r|..];
    r
  }

  /** Trailing white space makes no difference to `trimEnd`. */
  lemma {:induction false} TrimEndSpaces(u: string, t: string)
    requires AllSpaces(t)
    ensures TrimEnd(u + t) == TrimEnd(u)
    decreases |t|
  {
    if t != [] {
      var front := t[..|t| - 1];
      assert IsSpace((u + t)[|u + t| - 1]);
      assert (u + t)[..|u + t| - 1] == u + front;
      assert TrimEnd(u + t) == TrimEnd(u + front);
      assert AllSpaces(front);
      TrimEndSpaces(u, front);
    } else {
      assert u + t == u;
    }
  }

  /** Trailing white space makes no difference to `trim`. */
  lemma TrimSpaces(s: string, t: string)
    requires AllSpaces(t)
    ensures Trim(s + t) == Trim(s)
  {
    var j := SkipSpaces(s, 0);
    if j < |s| {
      SkipSpacesTo(s + t, 0, j);
      assert TrimStart(s + t) == TrimStart(s) + t;
    } else {
      SkipSpacesTo(s + t, 0, |s + t|);
    }
    TrimEndSpaces(TrimStart(s), t);
  }

  /** A prefix of `s` trims as it would without the white space it ends with. */
  lemma TrimSpaceRun(s: string, l: nat, j: nat)
    requires l <= j <= |s| && forall k :: l <= k < j ==> IsSpace(s[k])
    ensures Trim(s[..j]) == Trim(s[..l])
  {
    assert s[..j] == s[..l] + s[l..j];
    TrimSpaces(s[..l], s[l..j]);
  }

  /** The first line terminator at or after `i`, else `|s|`: how far a `.*` that starts at `i` can reach. */
  function LineEnd(s: string, i: nat): (k: nat)
    requires i <= |s|
    ensures i <= k <= |s|
    ensures forall n :: i <= n < k ==> !IsLineTerminator(s[n])
    ensures k < |s| ==> IsLineTerminator(s[k])
    decreases |s| - i
  {
    if i == |s| || IsLineTerminator(s[i]) then i else LineEnd(s, i + 1)
  }

  /** Trimming a word followed by one space gives the word back. */
  lemma TrimTrailingSpace(w: string)
    requires w != [] && !IsSpace(w[0]) && !IsSpace(w[|w| - 1])
    ensures Trim(w + " ") == w
  {
    var s := w + " ";
    SkipSpacesTo(s, 0, 0);
    assert TrimStart(s) == s;
    assert s[..|s| - 1] == w;
    assert TrimEnd(s) == TrimEnd(w);
  }

  predicate StartsWith(s: string, p: string) {
    |p| <= |s| && s[..|p|] == p
  }

  predicate EndsWith(s: string, p: string) {
    |p| <= |s| && s[|s| - |p|..] == p
  }

  /** `t` occurs in `s` at index `i`. */
  predicate OccursAt(s: string, t: string, i: nat) {
    i + |t| <= |s| && s[i..i + |t|] == t
  }

  /** An occurrence after the first character is one in the tail. */
  lemma OccursAtTail(s: string, t: string, i: nat)
    requires 1 <= i && s != []
    ensures OccursAt(s, t, i) == OccursAt(s[1..], t, i - 1)
  {
    if i + |t| <= |s| {
      var a, b := s[i..i + |t|], s[1..][i - 1..i - 1 + |t|];
      assert forall k :: 0 <= k < |a| ==> a[k] == b[k];
      assert a == b;
    }
  }

  /** `s.includes(t)`, by scanning. */
  function Contains(s: string, t: string): (b: bool)
    ensures b <==> exists i :: OccursAt(s, t, i)
    decreases |s|
  {
    if StartsWith(s, t) then
      assert OccursAt(s, t, 0);
      true
    else if |s| <= |t| then
      false
    else
      var b := Contains(s[1..], t);
      forall i | 1 <= i ensures OccursAt(s, t, i) == OccursAt(s[1..], t, i - 1) {
        OccursAtTail(s, t, i);
      }
      if b then
        var i: nat :| OccursAt(s[1..], t, i);
        assert OccursAt(s, t, i + 1);
        b
      else
        assert !OccursAt(s, t, 0);
        b
  }

  /** `trimStart` of a concatenation: leading white space of `a` goes, and all of `a` when it is only white space. */
  lemma TrimStartConcat(a: string, b: string)
    ensures TrimStart(a + b) == if TrimStart(a) != "" then TrimStart(a) + b else TrimStart(b)
  {
    var ab := a + b;
    var j := SkipSpaces(a, 0);
    assert forall i :: 0 <= i < |a| ==> ab[i] == a[i];
    if j < |a| {
      SkipSpacesTo(ab, 0, j);
      assert ab[j..] == a[j..] + b;
    } else {
      var k := SkipSpaces(b, 0);
      assert forall i :: 0 <= i < |b| ==> ab[|a| + i] == b[i];
      SkipSpacesTo(ab, 0, |a| + k);
      assert ab[|a| + k..] == b[k..];
    }
  }

  /** Text that starts with a non-space character is unchanged by `trimStart`. */
  lemma TrimStartKeeps(s: string)
    requires s != [] && !IsSpace(s[0])
    ensures TrimStart(s) == s
  {
    assert SkipSpaces(s, 0) == 0;
  }

  /** Text that ends in a non-space character is unchanged by `trimEnd`. */
  lemma TrimEndKeeps(s: string)
    requires s != [] && !IsSpace(s[|s| - 1])
    ensures TrimEnd(s) == s
  {
  }

  /** The decimal digit for `d`. */
  function DigitChar(d: nat): (c: char)
    requires d < 10
    ensures IsDigit(c)
  {
    ['0', '1', '2', '3', '4', '5', '6', '7', '8', '9'][d]
  }

  /** The value of a string of decimal digits. */
  function DigitsValue(s: string): nat
    requires forall k :: 0 <= k < |s| ==> IsDigit(s[k])
  {
    if s == [] then 0
    else
      var c := s[|s| - 1];
      assert IsDigit(c);
      10 * DigitsValue(s[..|s| - 1]) + (c as int - '0' as int)
  }

  /** `String(n)` for a non-negative integer: its decimal digits, without leading zeros. */
  function NatToString(n: nat): (s: string)
    ensures s != [] && forall k :: 0 <= k < |s| ==> IsDigit(s[k])
    decreases n
  {
    if n < 10 then [DigitChar(n)] else NatToString(n / 10) + [DigitChar(n % 10)]
  }

  /** `String(n)` (or `${n}`) for an integer: a minus sign before the digits of a negative one. */
  function IntToString(n: int): (s: string)
    ensures s != []
  {
    if n < 0 then "-" + NatToString(-n) else NatToString(n)
  }

  /** Reading the digits back gives the number, and only zero is written with a leading `0`. */
  lemma {:induction false} NatToStringRoundTrip(n: nat)
    ensures DigitsValue(NatToString(n)) == n
    ensures NatToString(n)[0] == '0' <==> n == 0
    decreases n
  {
    var s := NatToString(n);
    if n >= 10 {
      NatToStringRoundTrip(n / 10);
      assert s[..|s| - 1] == NatToString(n / 10);
      assert s[0] == NatToString(n / 10)[0];
    }
  }
}
