/**
 * The template filter `to_bangla_number`: every ASCII digit of the text is
 * replaced by the Bengali digit of the same value, every other character is
 * kept.
 */
module Filters {
  import opened Wrappers
  import opened PyStr

  /** The filter's per-character table. */
  const Numbers: map<char, char> :=
    map['0' := '০', '1' := '১', '2' := '২', '3' := '৩', '4' := '৪',
        '5' := '৫', '6' := '৬', '7' := '৭', '8' := '৮', '9' := '৯']

  predicate IsAsciiDigit(c: char) {
    '0' <= c <= '9'
  }

  /** `numbers.get(ch, ch)`. */
  function MapChar(c: char): (r: char)
    ensures !IsAsciiDigit(r)
    ensures r == c <==> !IsAsciiDigit(c)
  {
    NumbersTable(c);
    if c in Numbers then Numbers[c] else c
  }

  /** The table holds exactly the ten ASCII digits, each mapped to the Bengali digit
      (U+09E6 to U+09EF) of the same value. */
  lemma NumbersTable(c: char)
    ensures c in Numbers <==> IsAsciiDigit(c)
    ensures c in Numbers ==> Numbers[c] as int == c as int - '0' as int + 0x9E6
  {
    if IsAsciiDigit(c) {
      var n := c as int - '0' as int;
      assert c == ('0' as int + n) as char;
      assert n == 0 || n == 1 || n == 2 || n == 3 || n == 4 || n == 5 || n == 6 || n == 7 || n == 8 || n == 9;
    }
  }

  /** `to_bangla_number(value)` applied to the text `str(value)`. */
  function ToBanglaNumber(s: string): (r: string)
    ensures |r| == |s|
    ensures forall i :: 0 <= i < |s| ==> r[i] == MapChar(s[i])
  {
    if s == [] then [] else [MapChar(s[0])] + ToBanglaNumber(s[1..])
  }

  /** One character: an ASCII digit becomes the Bengali digit of the same value, any
      other character is itself. */
  lemma MapCharDigit(c: char)
    ensures IsAsciiDigit(c) ==> MapChar(c) as int == c as int - '0' as int + 0x9E6
    ensures IsAsciiDigit(c) ==> DigitValue(MapChar(c)) == DigitValue(c)
    ensures !IsAsciiDigit(c) ==> MapChar(c) == c
  {
    NumbersTable(c);
  }

  /** Each ASCII digit of the text becomes the Bengali digit of the same value; every
      other character is passed through unchanged. */
  lemma DigitMapping(s: string, i: int)
    requires 0 <= i < |s|
    ensures IsAsciiDigit(s[i]) ==> ToBanglaNumber(s)[i] as int == s[i] as int - '0' as int + 0x9E6
    ensures !IsAsciiDigit(s[i]) ==> ToBanglaNumber(s)[i] == s[i]
  {
    MapCharDigit(s[i]);
  }

  /** The filter works character by character, so it distributes over concatenation. */
  lemma {:induction false} Concatenation(a: string, b: string)
    ensures ToBanglaNumber(a + b) == ToBanglaNumber(a) + ToBanglaNumber(b)
  {
    if a != [] {
      assert (a + b)[1..] == a[1..] + b;
      Concatenation(a[1..], b);
    }
  }

  /** The output holds no ASCII digit, so a second application changes nothing. */
  lemma NoAsciiDigitsLeft(s: string)
    ensures forall i :: 0 <= i < |s| ==> !IsAsciiDigit(ToBanglaNumber(s)[i])
    ensures ToBanglaNumber(ToBanglaNumber(s)) == ToBanglaNumber(s)
  {
    var r := ToBanglaNumber(s);
    forall i | 0 <= i < |s| ensures !IsAsciiDigit(r[i]) && MapChar(r[i]) == r[i] {
      MapCharDigit(s[i]);
      NumbersTable(r[i]);
    }
  }

  /** On a string of ASCII digits the filter keeps Python's digit grammar and the value
      the digits spell. */
  lemma BanglaDigitsValue(ds: string)
    requires forall i :: 0 <= i < |ds| ==> IsAsciiDigit(ds[i])
    ensures forall i :: 0 <= i < |ds| ==> IsDigit(ToBanglaNumber(ds)[i])
    ensures DigitsValue(ToBanglaNumber(ds)) == DigitsValue(ds)
  {
    forall i | 0 <= i < |ds| ensures IsDigit(ToBanglaNumber(ds)[i]) {
      MapCharDigit(ds[i]);
    }
    BanglaDigitsSpell(ds);
  }

  lemma {:induction false} BanglaDigitsSpell(ds: string)
    requires forall i :: 0 <= i < |ds| ==> IsAsciiDigit(ds[i])
    ensures DigitsValue(ToBanglaNumber(ds)) == DigitsValue(ds)
  {
    if ds != [] {
      var n := |ds| - 1;
      var init, last := ds[..n], ds[n];
      assert ds == init + [last];
      BanglaDigitsSpell(init);
      var c := MapChar(last);
      assert ToBanglaNumber(ds) == ToBanglaNumber(init) + [c] by {
        Concatenation(init, [last]);
        assert ToBanglaNumber([last]) == [c];
      }
      MapCharDigit(last);
      DigitsValueSnoc(init, last);
      DigitsValueSnoc(ToBanglaNumber(init), c);
    }
  }

  /** Python's `int()` reads the Bengali rendering of `str(n)` back as `n`:
      `int(to_bangla_number(n)) == n`. */
  lemma ParseIntOfBanglaNumber(n: int)
    ensures ParseInt(ToBanglaNumber(IntToStr(n))) == Some(n)
  {
    if n < 0 {
      BanglaOfNegative(-n);
    } else {
      BanglaOfNatural(n);
    }
  }

  /** The Bengali rendering of a natural number's digits: Bengali digits spelling it. */
  lemma BanglaOfNatDigits(m: nat)
    ensures ToBanglaNumber(NatToStr(m)) != []
    ensures forall i :: 0 <= i < |ToBanglaNumber(NatToStr(m))| ==> IsDigit(ToBanglaNumber(NatToStr(m))[i])
    ensures DigitsValue(ToBanglaNumber(NatToStr(m))) == m
  {
    NatToStrValue(m);
    BanglaDigitsValue(NatToStr(m));
  }

  lemma BanglaOfNatural(m: nat)
    ensures ParseInt(ToBanglaNumber(IntToStr(m))) == Some(m)
  {
    BanglaOfNatDigits(m);
    ParseIntOfDigits(ToBanglaNumber(NatToStr(m)));
  }

  lemma BanglaOfNegative(m: nat)
    requires m > 0
    ensures ParseInt(ToBanglaNumber(IntToStr(-(m as int)))) == Some(-(m as int))
  {
    var bs := BanglaOfMinus(m);
    ParseIntOfMinusBangla(m);
  }

  /** A minus sign before the Bengali digits of `m` reads back as `-m`. */
  lemma ParseIntOfMinusBangla(m: nat)
    ensures ParseInt("-" + ToBanglaNumber(NatToStr(m))) == Some(-(m as int))
  {
    BanglaOfNatDigits(m);
    ParseIntOfNegativeDigits(ToBanglaNumber(NatToStr(m)));
  }

  /** The rendering of `-m` is a minus sign before the rendering of `m`. */
  lemma BanglaOfMinus(m: nat) returns (bs: string)
    requires m > 0
    ensures bs == ToBanglaNumber(NatToStr(m))
    ensures ToBanglaNumber(IntToStr(-(m as int))) == "-" + bs
  {
    bs := ToBanglaNumber(NatToStr(m));
    Concatenation("-", NatToStr(m));
    assert ToBanglaNumber("-") == "-";
  }
}
