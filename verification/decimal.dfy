/**
 * Decimal text of integers as JavaScript renders them in a template string
 * (`${n}` for an integer-valued number), the two-decimal text of
 * `Number.prototype.toFixed(2)`, and readers that recover the numbers.
 */
module Decimal {
  import opened Wrappers

  predicate IsDigit(c: char) {
    '0' <= c <= '9'
  }

  predicate AllDigits(s: string) {
    forall i :: 0 <= i < |s| ==> IsDigit(s[i])
  }

  function DigitChar(d: nat): (c: char)
    requires d < 10
    ensures IsDigit(c)
  {
    ('0' as int + d) as char
  }

  function DigitValue(c: char): nat
    requires IsDigit(c)
  {
    c as int - '0' as int
  }

  /** The decimal text of `n`, most significant digit first, no leading zeros. */
  function NatToString(n: nat): string
    decreases n
  {
    if n < 10 then [DigitChar(n)] else NatToString(n / 10) + [DigitChar(n % 10)]
  }

  /** `${i}` for an integer-valued number `i`. */
  function IntToString(i: int): string {
    if i < 0 then "-" + NatToString(-i) else NatToString(i)
  }

  /** The value of a string of decimal digits. */
  function DigitsValue(s: string): nat
    requires AllDigits(s)
    decreases |s|
  {
    if s == [] then 0 else DigitsValue(s[..|s| - 1]) * 10 + DigitValue(s[|s| - 1])
  }

  /** A natural number written as one or more decimal digits, with no leading zero unless it is 0 itself. */
  function ParseNat(s: string): Option<nat> {
    if |s| > 0 && AllDigits(s) && (s[0] != '0' || |s| == 1) then Some(DigitsValue(s)) else None
  }

  /** An integer written as an optional minus sign followed by decimal digits; "-0" is not one. */
  function ParseInt(s: string): Option<int> {
    if |s| > 0 && s[0] == '-' then
      match ParseNat(s[1..])
      case Some(n) => if n == 0 then None else Some(-(n as int))
      case None => None
    else
      match ParseNat(s)
      case Some(n) => Some(n as int)
      case None => None
  }

  /**
   * `x.toFixed(2)` where `h` is the integer that toFixed picks for `x * 100`:
   * the integer part, a point, and exactly two fractional digits.
   */
  function ToFixed2(h: nat): string {
    NatToString(h / 100) + "." + [DigitChar(h % 100 / 10), DigitChar(h % 10)]
  }

  /** Reads text of the shape `digits.dd` back as a number of hundredths. */
  function ReadFixed2(s: string): Option<nat> {
    if |s| >= 4 && s[|s| - 3] == '.' && ParseNat(s[..|s| - 3]).Some? && AllDigits(s[|s| - 2..]) then
      Some(ParseNat(s[..|s| - 3]).value * 100 + DigitsValue(s[|s| - 2..]))
    else
      None
  }

  lemma DigitsValueSnoc(s: string, c: char)
    requires AllDigits(s) && IsDigit(c)
    ensures AllDigits(s + [c]) && DigitsValue(s + [c]) == DigitsValue(s) * 10 + DigitValue(c)
  {
    assert (s + [c])[..|s|] == s;
  }

  /** The decimal text of `n` is non-empty, all digits, has no leading zero, and reads back as `n`. */
  lemma {:induction false} NatToStringRoundTrip(n: nat)
    ensures |NatToString(n)| > 0 && AllDigits(NatToString(n))
    ensures NatToString(n)[0] != '0' || n == 0
    ensures DigitsValue(NatToString(n)) == n
    ensures ParseNat(NatToString(n)) == Some(n)
    decreases n
  {
    if n >= 10 {
      NatToStringRoundTrip(n / 10);
      DigitsValueSnoc(NatToString(n / 10), DigitChar(n % 10));
    }
  }

  /** `${i}` reads back as `i`, sign included. */
  lemma IntToStringRoundTrip(i: int)
    ensures |IntToString(i)| > 0 && IsDigit(IntToString(i)[|IntToString(i)| - 1])
    ensures forall k :: 0 <= k < |IntToString(i)| ==> IntToString(i)[k] != '.'
    ensures ParseInt(IntToString(i)) == Some(i)
  {
    var s := IntToString(i);
    if i < 0 {
      var digits := NatToString(-i);
      NatToStringRoundTrip(-i);
      assert s == "-" + digits;
      assert s[0] == '-' && s[1..] == digits;
      assert s[|s| - 1] == digits[|digits| - 1];
      assert forall k :: 1 <= k < |s| ==> s[k] == digits[k - 1];
      assert ParseNat(s[1..]) == Some(-i);
    } else {
      NatToStringRoundTrip(i);
      assert s == NatToString(i);
    }
  }

  /** The text of `toFixed(2)` has exactly two digits after its point and reads back as the same hundredths. */
  lemma ReadFixed2RoundTrip(h: nat)
    ensures |ToFixed2(h)| >= 4 && ToFixed2(h)[|ToFixed2(h)| - 3] == '.'
    ensures AllDigits(ToFixed2(h)[..|ToFixed2(h)| - 3]) && AllDigits(ToFixed2(h)[|ToFixed2(h)| - 2..])
    ensures IsDigit(ToFixed2(h)[|ToFixed2(h)| - 1])
    ensures ReadFixed2(ToFixed2(h)) == Some(h)
  {
    var whole := NatToString(h / 100);
    var d1, d0 := DigitChar(h % 100 / 10), DigitChar(h % 10);
    var s := ToFixed2(h);
    NatToStringRoundTrip(h / 100);
    assert s == whole + "." + [d1, d0];
    assert s[..|s| - 3] == whole;
    assert s[|s| - 2..] == [d1, d0];
    DigitsValueSnoc([d1], d0);
    assert [d1] + [d0] == [d1, d0];
    assert [d1][..0] == [];
  }

  lemma DigitCharValue(c: char)
    requires IsDigit(c)
    ensures DigitValue(c) < 10 && DigitChar(DigitValue(c)) == c
  {
  }

  /** Digits without a leading zero are the decimal text of their value, which is positive unless the text is "0". */
  lemma {:induction false} DigitsCanonical(s: string)
    requires |s| > 0 && AllDigits(s) && (s[0] != '0' || |s| == 1)
    ensures s == NatToString(DigitsValue(s))
    ensures s[0] != '0' ==> DigitsValue(s) > 0
    decreases |s|
  {
    var c := s[|s| - 1];
    DigitCharValue(c);
    if |s| == 1 {
      assert s[..0] == [];
      assert s == [c];
    } else {
      var p := s[..|s| - 1];
      assert p[0] == s[0];
      assert AllDigits(p);
      DigitsCanonical(p);
      var m, d := DigitsValue(p), DigitValue(c);
      var n := DigitsValue(s);
      assert n == m * 10 + d;
      assert n / 10 == m && n % 10 == d;
      assert s == p + [c];
    }
  }

  /** Whatever `ParseNat` accepts is exactly the decimal text of the value it reads. */
  lemma ParseNatCanonical(s: string)
    ensures ParseNat(s).Some? ==> s == NatToString(ParseNat(s).value)
  {
    if ParseNat(s).Some? {
      DigitsCanonical(s);
    }
  }

  /** Whatever `ParseInt` accepts is exactly `${i}` for the integer `i` it reads. */
  lemma ParseIntCanonical(s: string)
    ensures ParseInt(s).Some? ==> s == IntToString(ParseInt(s).value)
  {
    if |s| > 0 && s[0] == '-' {
      ParseNatCanonical(s[1..]);
      assert s == "-" + s[1..];
    } else {
      ParseNatCanonical(s);
    }
  }

  /** Whatever `ReadFixed2` accepts is exactly the `toFixed(2)` text of the hundredths it reads. */
  lemma ReadFixed2Canonical(s: string)
    ensures ReadFixed2(s).Some? ==> s == ToFixed2(ReadFixed2(s).value)
  {
    if ReadFixed2(s).Some? {
      var whole, frac := s[..|s| - 3], s[|s| - 2..];
      ParseNatCanonical(whole);
      var a := ParseNat(whole).value;
      var c1, c0 := frac[0], frac[1];
      DigitCharValue(c1);
      DigitCharValue(c0);
      assert frac == [c1] + [c0];
      assert [c1][..0] == [];
      DigitsValueSnoc([c1], c0);
      var f := DigitsValue(frac);
      assert f == DigitValue(c1) * 10 + DigitValue(c0);
      var h := a * 100 + f;
      assert h / 100 == a && h % 100 / 10 == DigitValue(c1) && h % 10 == DigitValue(c0);
      assert s == whole + "." + [c1, c0];
    }
  }

  /** Integer text never reads as two-decimal text: it has no point. */
  lemma ReadFixed2OfInt(i: int)
    ensures ReadFixed2(IntToString(i)) == None
  {
    IntToStringRoundTrip(i);
  }
}
