/**
 * The few Python string operations the application relies on: `str.strip()`,
 * `str.lower()` on the characters that occur in its data, the substring test
 * `p in s`, the builtin `int(s)` on text and `str(n)` on integers.
 */
module PyStr {
  import opened Wrappers

  /** Python's `str.isspace()` for one character: the characters `str.strip()` removes. */
  predicate IsSpace(c: char) {
    || ('\t' <= c <= '\r')
    || ('\U{1c}' <= c <= ' ')
    || c == '\U{85}' || c == '\U{a0}' || c == '\U{1680}'
    || ('\U{2000}' <= c <= '\U{200a}')
    || c == '\U{2028}' || c == '\U{2029}' || c == '\U{202f}' || c == '\U{205f}' || c == '\U{3000}'
  }

  /** The end of the run of whitespace that starts at `k`. */
  function SpacesFrom(s: string, k: nat): (n: nat)
    requires k <= |s|
    ensures k <= n <= |s|
    ensures forall i :: k <= i < n ==> IsSpace(s[i])
    ensures n < |s| ==> !IsSpace(s[n])
    decreases |s| - k
  {
    if k < |s| && IsSpace(s[k]) then SpacesFrom(s, k + 1) else k
  }

  /** The start of the run of whitespace that ends just before `k`. */
  function SpacesBefore(s: string, k: nat): (n: nat)
    requires k <= |s|
    ensures n <= k
    ensures forall i :: n <= i < k ==> IsSpace(s[i])
    ensures 0 < n ==> !IsSpace(s[n - 1])
  {
    if 0 < k && IsSpace(s[k - 1]) then SpacesBefore(s, k - 1) else k
  }

  /** Whitespace removed from the front. */
  function StripLeft(s: string): (r: string)
    ensures |r| <= |s|
    ensures forall i :: 0 <= i < |r| ==> r[i] == s[|s| - |r| + i]
    ensures forall i :: 0 <= i < |s| - |r| ==> IsSpace(s[i])
    ensures r != [] ==> !IsSpace(r[0])
  {
    s[SpacesFrom(s, 0)..]
  }

  /** Whitespace removed from the back. */
  function StripRight(s: string): (r: string)
    ensures |r| <= |s| && r == s[..|r|]
    ensures forall i :: |r| <= i < |s| ==> IsSpace(s[i])
    ensures r != [] ==> !IsSpace(r[|r| - 1])
  {
    s[..SpacesBefore(s, |s|)]
  }

  /** Python's `s.strip()`. */
  function Strip(s: string): string {
    StripRight(StripLeft(s))
  }

  /** `Strip(s)` is the slice `s[a..b]` with only whitespace outside it and none at its ends. */
  lemma StripSpan(s: string) returns (a: nat, b: nat)
    ensures a <= b <= |s| && Strip(s) == s[a..b]
    ensures forall i :: 0 <= i < a ==> IsSpace(s[i])
    ensures forall i :: b <= i < |s| ==> IsSpace(s[i])
    ensures Strip(s) != [] ==> !IsSpace(Strip(s)[0]) && !IsSpace(Strip(s)[|Strip(s)| - 1])
  {
    var l := StripLeft(s);
    a := |s| - |l|;
    b := a + |StripRight(l)|;
    assert l == s[a..];
    assert s[a..b] == l[..|StripRight(l)|];
    if StripRight(l) != [] {
      assert StripRight(l)[0] == l[0];
    }
  }

  /** A string with no whitespace at either end is its own strip. */
  lemma {:induction false} StripTrimmed(s: string)
    requires s != [] ==> !IsSpace(s[0]) && !IsSpace(s[|s| - 1])
    ensures Strip(s) == s
  {
  }

  /** Stripping twice is stripping once. */
  lemma StripIdempotent(s: string)
    ensures Strip(Strip(s)) == Strip(s)
  {
    var a, b := StripSpan(s);
    StripTrimmed(Strip(s));
  }

  /** Python's `str.lower()` on one character, for the ASCII letters. */
  function LowerChar(c: char): char {
    if 'A' <= c <= 'Z' then (c as int + 32) as char else c
  }

  /** Python's `s.lower()`, character by character. */
  function Lower(s: string): (r: string)
    ensures |r| == |s|
    ensures forall i :: 0 <= i < |s| ==> r[i] == LowerChar(s[i])
  {
    if s == [] then [] else [LowerChar(s[0])] + Lower(s[1..])
  }

  /** Lower-casing neither creates nor removes whitespace, so it commutes with a strip
      already done, and doing it twice changes nothing. */
  lemma LowerOfStripped(s: string)
    ensures Strip(Lower(Strip(s))) == Lower(Strip(s))
    ensures Lower(Lower(Strip(s))) == Lower(Strip(s))
  {
    var a, b := StripSpan(s);
    LowerKeepsTrimmed(Strip(s));
    LowerIdempotent(Strip(s));
  }

  /** Lower-casing a string with no whitespace at its ends leaves none there. */
  lemma LowerKeepsTrimmed(t: string)
    requires t != [] ==> !IsSpace(t[0]) && !IsSpace(t[|t| - 1])
    ensures Strip(Lower(t)) == Lower(t)
  {
    var u := Lower(t);
    if u != [] {
      LowerCharKeepsSpace(t[0]);
      LowerCharKeepsSpace(t[|t| - 1]);
    }
    StripTrimmed(u);
  }

  /** Lower-casing a non-space character gives a non-space character. */
  lemma LowerCharKeepsSpace(c: char)
    requires !IsSpace(c)
    ensures !IsSpace(LowerChar(c))
  {
  }

  /** Text without ASCII capitals is its own lower-case form. */
  lemma LowerCaseIsLower(s: string)
    requires forall j :: 0 <= j < |s| ==> !('A' <= s[j] <= 'Z')
    ensures Lower(s) == s
  {
    assert forall j :: 0 <= j < |s| ==> Lower(s)[j] == s[j];
  }

  /** Lower-casing twice is lower-casing once. */
  lemma LowerIdempotent(t: string)
    ensures Lower(Lower(t)) == Lower(t)
  {
    var u := Lower(t);
    assert forall i :: 0 <= i < |u| ==> Lower(u)[i] == u[i];
  }

  /** `p` occurs in `s` starting at index `i`. */
  predicate OccursAt(s: string, p: string, i: int) {
    0 <= i && i + |p| <= |s| && s[i..i + |p|] == p
  }

  /** Python's `p in s` for strings. */
  predicate Contains(s: string, p: string) {
    exists i :: 0 <= i <= |s| - |p| && OccursAt(s, p, i)
  }

  /** A non-empty pattern whose first character does not occur in `s` is not in `s`. */
  lemma NotContainsByFirstChar(s: string, p: string)
    requires p != [] && p[0] !in s
    ensures !Contains(s, p)
  {
    forall i | 0 <= i <= |s| - |p| ensures !OccursAt(s, p, i) {
      assert s[i] in s;
      assert s[i..i + |p|][0] == s[i];
    }
  }

  /** A pattern with no whitespace that occurs in `s` still occurs in `Strip(s)`. */
  lemma ContainsSurvivesStrip(s: string, p: string)
    requires Contains(s, p)
    requires forall k :: 0 <= k < |p| ==> !IsSpace(p[k])
    ensures Contains(Strip(s), p)
  {
    var i :| 0 <= i <= |s| - |p| && OccursAt(s, p, i);
    if p == [] {
      assert OccursAt(Strip(s), p, 0);
    } else {
      assert s[i] == p[0] && s[i + |p| - 1] == p[|p| - 1] by {
        assert s[i..i + |p|] == p;
      }
      InsideStrip(s, p, i);
    }
  }

  /** An occurrence that starts and ends with non-space characters survives the strip. */
  lemma InsideStrip(s: string, p: string, i: nat)
    requires p != [] && OccursAt(s, p, i)
    requires !IsSpace(s[i]) && !IsSpace(s[i + |p| - 1])
    ensures Contains(Strip(s), p)
  {
    var a, b := StripSpan(s);
    NonSpaceInsideSpan(s, a, b, i, s[i]);
    NonSpaceInsideSpan(s, a, b, i + |p| - 1, s[i + |p| - 1]);
    ContainsInSlice(s, a, b, p, i);
  }

  /** An occurrence inside `s[a..b]` is an occurrence in that slice. */
  lemma ContainsInSlice(s: string, a: nat, b: nat, p: string, i: nat)
    requires a <= i && i + |p| <= b <= |s| && OccursAt(s, p, i)
    ensures Contains(s[a..b], p)
  {
    SliceOfSlice(s, a, b, i, i + |p|);
    assert OccursAt(s[a..b], p, i - a);
  }

  /** A non-space character of `s` lies inside the span that the strip keeps. */
  lemma NonSpaceInsideSpan(s: string, a: nat, b: nat, k: int, c: char)
    requires a <= b <= |s|
    requires forall i :: 0 <= i < a ==> IsSpace(s[i])
    requires forall i :: b <= i < |s| ==> IsSpace(s[i])
    requires 0 <= k < |s| && s[k] == c && !IsSpace(c)
    ensures a <= k < b
  {
  }

  lemma SliceOfSlice(s: string, a: nat, b: nat, i: nat, j: nat)
    requires a <= i <= j <= b <= |s|
    ensures s[a..b][i - a..j - a] == s[i..j]
  {
    forall k | 0 <= k < j - i ensures s[a..b][i - a..j - a][k] == s[i..j][k] {
      assert s[a..b][i - a + k] == s[i + k];
    }
  }

  /** A pattern with no upper-case letter that occurs in `t` still occurs in `Lower(t)`. */
  lemma ContainsSurvivesLower(t: string, p: string)
    requires Contains(t, p)
    requires forall k :: 0 <= k < |p| ==> LowerChar(p[k]) == p[k]
    ensures Contains(Lower(t), p)
  {
    var j :| 0 <= j <= |t| - |p| && OccursAt(t, p, j);
    var u := Lower(t);
    forall k | 0 <= k < |p| ensures u[j + k] == p[k] {
      assert t[j + k] == t[j..j + |p|][k];
    }
    assert u[j..j + |p|] == p;
    assert OccursAt(u, p, j);
  }

  /** A pattern with no whitespace and no upper-case letter that occurs in `s` still
      occurs in `Lower(Strip(s))`. */
  lemma ContainsSurvivesStripLower(s: string, p: string)
    requires Contains(s, p)
    requires forall k :: 0 <= k < |p| ==> !IsSpace(p[k]) && LowerChar(p[k]) == p[k]
    ensures Contains(Lower(Strip(s)), p)
  {
    ContainsSurvivesStrip(s, p);
    ContainsSurvivesLower(Strip(s), p);
  }

  /** The value of a decimal digit: Python's `int()` accepts every Unicode decimal digit;
      this model knows the ASCII and the Bengali ones. */
  function DigitValue(c: char): (d: Option<nat>)
    ensures d.Some? ==> d.value < 10
    ensures d.Some? <==> ('0' <= c <= '9' || '\U{9e6}' <= c <= '\U{9ef}')
  {
    if '0' <= c <= '9' then Some(c as int - '0' as int)
    else if '\U{9e6}' <= c <= '\U{9ef}' then Some(c as int - 0x9e6)
    else None
  }

  predicate IsDigit(c: char) {
    DigitValue(c).Some?
  }

  /** Python's grammar for the digits of a base-10 integer: `digit ("_"? digit)*`. */
  predicate WellFormedDigits(s: string) {
    && |s| > 0 && IsDigit(s[0]) && IsDigit(s[|s| - 1])
    && (forall i :: 0 <= i < |s| ==> IsDigit(s[i]) || s[i] == '_')
    && (forall i :: 0 <= i < |s| - 1 ==> s[i] == '_' ==> IsDigit(s[i + 1]))
  }

  /** The number the digits of `s` spell, most significant first, skipping underscores. */
  function DigitsValue(s: string): nat {
    if s == [] then 0
    else
      var d := DigitValue(s[|s| - 1]);
      if d.Some? then 10 * DigitsValue(s[..|s| - 1]) + d.value else DigitsValue(s[..|s| - 1])
  }

  /** Python's `int(s)` on a string, with base 10: `None` where Python raises ValueError.
      Surrounding whitespace is allowed. */
  function ParseInt(s: string): Option<int> {
    ParseSigned(Strip(s))
  }

  /** An optional sign followed by digits. */
  function ParseSigned(t: string): Option<int> {
    if t != [] && t[0] == '-' then
      match ParseUnsigned(t[1..])
      case Some(v) => Some(-v)
      case None => None
    else if t != [] && t[0] == '+' then ParseUnsigned(t[1..])
    else ParseUnsigned(t)
  }

  /** Digits with single underscores between them. */
  function ParseUnsigned(body: string): Option<int> {
    if WellFormedDigits(body) then Some(DigitsValue(body)) else None
  }

  /** Python's `str(n)` for a natural number: ASCII digits, no leading zero. */
  function NatToStr(n: nat): (r: string)
    ensures |r| > 0 && forall i :: 0 <= i < |r| ==> '0' <= r[i] <= '9'
    ensures r[0] == '0' ==> n == 0
  {
    if n < 10 then [('0' as int + n) as char]
    else NatToStr(n / 10) + [('0' as int + n % 10) as char]
  }

  /** Python's `str(n)` for an integer. */
  function IntToStr(n: int): string {
    if n < 0 then "-" + NatToStr(-n) else NatToStr(n)
  }

  /** Appending one digit multiplies by ten and adds it. */
  lemma DigitsValueSnoc(s: string, c: char)
    requires IsDigit(c)
    ensures DigitsValue(s + [c]) == 10 * DigitsValue(s) + DigitValue(c).value
  {
    assert (s + [c])[..|s|] == s;
  }

  /** The digits `NatToStr` writes spell the number back. */
  lemma {:induction false} NatToStrValue(n: nat)
    ensures DigitsValue(NatToStr(n)) == n
  {
    if n >= 10 {
      NatToStrValue(n / 10);
      DigitsValueSnoc(NatToStr(n / 10), ('0' as int + n % 10) as char);
    }
  }

  lemma DigitIsNotSpaceOrSign(c: char)
    requires IsDigit(c)
    ensures !IsSpace(c) && c != '+' && c != '-'
  {
  }

  /** Text with no whitespace at either end is parsed as it stands. */
  lemma ParseIntOfTrimmed(s: string)
    requires s != [] && !IsSpace(s[0]) && !IsSpace(s[|s| - 1])
    ensures ParseInt(s) == ParseSigned(s)
  {
    StripTrimmed(s);
  }

  /** A run of digits parses to the value it spells. */
  lemma ParseIntOfDigits(body: string)
    requires body != [] && forall i :: 0 <= i < |body| ==> IsDigit(body[i])
    ensures ParseInt(body) == Some(DigitsValue(body))
  {
    DigitIsNotSpaceOrSign(body[0]);
    DigitIsNotSpaceOrSign(body[|body| - 1]);
    ParseIntOfTrimmed(body);
    assert ParseUnsigned(body) == Some(DigitsValue(body));
  }

  /** A minus sign and a run of digits parse to the negated value the digits spell. */
  lemma ParseIntOfNegativeDigits(body: string)
    requires body != [] && forall i :: 0 <= i < |body| ==> IsDigit(body[i])
    ensures ParseInt("-" + body) == Some(-(DigitsValue(body) as int))
  {
    var s := "-" + body;
    assert !IsSpace(s[0]) && !IsSpace(s[|s| - 1]) by {
      assert s[|s| - 1] == body[|body| - 1];
      DigitIsNotSpaceOrSign(body[|body| - 1]);
    }
    ParseIntOfTrimmed(s);
    ParseSignedNegative(body);
  }

  lemma ParseSignedNegative(body: string)
    requires body != [] && forall i :: 0 <= i < |body| ==> IsDigit(body[i])
    ensures ParseSigned("-" + body) == Some(-(DigitsValue(body) as int))
  {
    assert ("-" + body)[1..] == body;
    assert ParseUnsigned(body) == Some(DigitsValue(body));
  }

  /** `int(str(n)) == n`: Python's integer parser reads back what `str` writes. */
  lemma ParseIntOfIntToStr(n: int)
    ensures ParseInt(IntToStr(n)) == Some(n)
  {
    var m: nat := if n < 0 then -n else n;
    NatToStrValue(m);
    if n < 0 {
      ParseIntOfNegativeDigits(NatToStr(m));
    } else {
      ParseIntOfDigits(NatToStr(m));
    }
  }

  /** `int()` rejects the empty string and every all-whitespace string. */
  lemma ParseIntRejectsBlank(s: string)
    requires forall i :: 0 <= i < |s| ==> IsSpace(s[i])
    ensures ParseInt(s) == None
  {
  }
}
