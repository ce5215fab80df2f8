/**
 * The human-readable unit formatters: microseconds, milliseconds and bytes
 * rendered as a number and a unit suffix. Each is a tiered if-chain that
 * keeps small values as they are and otherwise divides by the tier's
 * divisor and renders the quotient with `toFixed(2)`.
 */
module Utils {
  import opened Wrappers
  import opened Decimal

  /**
   * The integer `toFixed(2)` picks for `(value / divisor) * 100` when the
   * quotient is exact: the nearest integer, the larger one at a tie.
   */
  function Hundredths(value: nat, divisor: nat): nat
    requires divisor > 0
  {
    (200 * value + divisor) / (2 * divisor)
  }

  /** `h` is an integer nearest to `num / den`. */
  predicate IsNearest(h: int, num: int, den: int) {
    2 * h * den - den <= 2 * num <= 2 * h * den + den
  }

  /** `h` is the integer nearest to `num / den`, the larger one at a tie: what `toFixed` picks. */
  predicate IsToFixedChoice(h: int, num: int, den: int) {
    2 * h * den - den <= 2 * num < 2 * h * den + den
  }

  /** `microsecondsToHuman`, for integer inputs. */
  function MicrosecondsToHuman(microseconds: int): string {
    if microseconds < 1000 then
      IntToString(microseconds) + "μs"
    else if microseconds < 1000000 then
      ToFixed2(Hundredths(microseconds, 1000)) + "ms"
    else
      ToFixed2(Hundredths(microseconds, 1000000)) + "s"
  }

  /** `milisecondsToHuman`, for integer inputs. */
  function MilisecondsToHuman(miliseconds: int): string {
    if miliseconds < 1000 then
      IntToString(miliseconds) + "ms"
    else
      ToFixed2(Hundredths(miliseconds, 1000)) + "s"
  }

  /**
   * `bytesToHuman`, for integer inputs. The source divides by 1024 once per
   * tier; for an integer these divisions are exact in binary floating point,
   * so they equal one division by the power of 1024.
   */
  function BytesToHuman(bytes: int): string {
    if bytes < 1024 then
      IntToString(bytes) + "B"
    else if bytes < 1024 * 1024 then
      ToFixed2(Hundredths(bytes, 1024)) + "KB"
    else if bytes < 1024 * 1024 * 1024 then
      ToFixed2(Hundredths(bytes, 1024 * 1024)) + "MB"
    else
      ToFixed2(Hundredths(bytes, 1024 * 1024 * 1024)) + "GB"
  }

  /** What a reader sees in a formatted value: a whole number or a number of hundredths, and the unit after it. */
  datatype Reading = Whole(value: int, unit: string) | Scaled(hundredths: nat, unit: string)

  predicate NoDigits(s: string) {
    forall i :: 0 <= i < |s| ==> !IsDigit(s[i])
  }

  /** The length of the run of non-digit characters that ends `s`. */
  function UnitLength(s: string): (k: nat)
    ensures k <= |s|
    decreases |s|
  {
    if s == [] || IsDigit(s[|s| - 1]) then 0 else 1 + UnitLength(s[..|s| - 1])
  }

  /** Reads formatted text back: the trailing non-digits are the unit, what precedes them the number. */
  function ReadHuman(s: string): Option<Reading> {
    var number := s[..|s| - UnitLength(s)];
    var unit := s[|s| - UnitLength(s)..];
    match ReadFixed2(number)
    case Some(h) => Some(Scaled(h, unit))
    case None =>
      match ParseInt(number)
      case Some(v) => Some(Whole(v, unit))
      case None => None
  }

  /** `s` reads as `hundredths` in unit `unit`, nearest to `num / den`. */
  predicate ReadsNearest(s: string, unit: string, num: int, den: int) {
    var r := ReadHuman(s);
    r.Some? && r.value.Scaled? && r.value.unit == unit && IsNearest(r.value.hundredths, num, den)
  }

  /** `s` reads as exactly the hundredths `toFixed(2)` picks for `num / den`, in unit `unit`. */
  predicate ReadsToFixed(s: string, unit: string, num: int, den: int) {
    var r := ReadHuman(s);
    r.Some? && r.value.Scaled? && r.value.unit == unit && IsToFixedChoice(r.value.hundredths, num, den)
  }

  /** The integer computed by `Hundredths` is the one `toFixed` picks. */
  lemma HundredthsIsToFixedChoice(value: nat, divisor: nat)
    requires divisor > 0
    ensures IsToFixedChoice(Hundredths(value, divisor), 100 * value, divisor)
    ensures IsNearest(Hundredths(value, divisor), 100 * value, divisor)
  {
    var h := Hundredths(value, divisor);
    var n, d := 200 * value + divisor, 2 * divisor;
    assert n == d * (n / d) + n % d;
    assert 0 <= n % d < d;
    assert h * d <= n < h * d + d;
  }

  lemma {:induction false} UnitLengthOf(number: string, unit: string)
    requires |number| > 0 && IsDigit(number[|number| - 1])
    requires NoDigits(unit)
    ensures UnitLength(number + unit) == |unit|
    decreases |unit|
  {
    var s := number + unit;
    if unit != [] {
      assert s[..|s| - 1] == number + unit[..|unit| - 1];
      UnitLengthOf(number, unit[..|unit| - 1]);
    } else {
      assert s == number;
    }
  }

  /**
   * The reader accepts one text per reading: a whole number is read only
   * from `${v}` followed by its unit, and hundredths only from the
   * `toFixed(2)` text followed by its unit.
   */
  lemma ReadHumanCanonical(s: string)
    ensures ReadHuman(s).Some? && ReadHuman(s).value.Whole? ==>
      s == IntToString(ReadHuman(s).value.value) + ReadHuman(s).value.unit
    ensures ReadHuman(s).Some? && ReadHuman(s).value.Scaled? ==>
      s == ToFixed2(ReadHuman(s).value.hundredths) + ReadHuman(s).value.unit
  {
    var number := s[..|s| - UnitLength(s)];
    var unit := s[|s| - UnitLength(s)..];
    assert s == number + unit;
    ReadFixed2Canonical(number);
    ParseIntCanonical(number);
  }

  /** Two texts with the same reading are the same text. */
  lemma ReadingDeterminesText(s: string, t: string)
    requires ReadHuman(s).Some? && ReadHuman(s) == ReadHuman(t)
    ensures s == t
  {
    ReadHumanCanonical(s);
    ReadHumanCanonical(t);
  }

  /** Integer text followed by a unit reads back as that integer and that unit. */
  lemma ReadHumanWhole(i: int, unit: string)
    requires NoDigits(unit)
    ensures ReadHuman(IntToString(i) + unit) == Some(Whole(i, unit))
  {
    var s := IntToString(i) + unit;
    IntToStringRoundTrip(i);
    UnitLengthOf(IntToString(i), unit);
    assert s[..|s| - |unit|] == IntToString(i);
    assert s[|s| - |unit|..] == unit;
    ReadFixed2OfInt(i);
  }

  /** Two-decimal text followed by a unit reads back as those hundredths and that unit. */
  lemma ReadHumanScaled(h: nat, unit: string)
    requires NoDigits(unit)
    ensures ReadHuman(ToFixed2(h) + unit) == Some(Scaled(h, unit))
  {
    var s := ToFixed2(h) + unit;
    ReadFixed2RoundTrip(h);
    UnitLengthOf(ToFixed2(h), unit);
    assert s[..|s| - |unit|] == ToFixed2(h);
    assert s[|s| - |unit|..] == unit;
  }

  /**
   * microsecondsToHuman: below 1000 the value itself with "μs" (negative
   * values included); from 1000 (inclusive) the value in milliseconds to two
   * decimals with "ms"; from 1000000 (inclusive) in seconds with "s".
   */
  lemma MicrosecondsToHumanReading(v: int)
    ensures v < 1000 ==> ReadHuman(MicrosecondsToHuman(v)) == Some(Whole(v, "μs"))
    ensures 1000 <= v < 1000000 ==> ReadsNearest(MicrosecondsToHuman(v), "ms", 100 * v, 1000)
    ensures 1000000 <= v ==> ReadsNearest(MicrosecondsToHuman(v), "s", 100 * v, 1000000)
  {
    if v < 1000 {
      ReadHumanWhole(v, "μs");
    } else if v < 1000000 {
      HundredthsIsToFixedChoice(v, 1000);
      ReadHumanScaled(Hundredths(v, 1000), "ms");
    } else {
      HundredthsIsToFixedChoice(v, 1000000);
      ReadHumanScaled(Hundredths(v, 1000000), "s");
    }
  }

  /** milisecondsToHuman: below 1000 the value itself with "ms"; from 1000 (inclusive) seconds to two decimals with "s". */
  lemma MilisecondsToHumanReading(v: int)
    ensures v < 1000 ==> ReadHuman(MilisecondsToHuman(v)) == Some(Whole(v, "ms"))
    ensures 1000 <= v ==> ReadsNearest(MilisecondsToHuman(v), "s", 100 * v, 1000)
  {
    if v < 1000 {
      ReadHumanWhole(v, "ms");
    } else {
      HundredthsIsToFixedChoice(v, 1000);
      ReadHumanScaled(Hundredths(v, 1000), "s");
    }
  }

  /**
   * bytesToHuman: below 1024 the byte count itself with "B"; otherwise the
   * count in KB, MB or GB, where each tier starts at its power of 1024
   * (inclusive) and GB has no upper bound, with exactly the two decimals
   * `toFixed(2)` gives.
   */
  lemma BytesToHumanReading(b: int)
    ensures b < 1024 ==> ReadHuman(BytesToHuman(b)) == Some(Whole(b, "B"))
    ensures 1024 <= b < 1048576 ==> ReadsToFixed(BytesToHuman(b), "KB", 100 * b, 1024)
    ensures 1048576 <= b < 1073741824 ==> ReadsToFixed(BytesToHuman(b), "MB", 100 * b, 1048576)
    ensures 1073741824 <= b ==> ReadsToFixed(BytesToHuman(b), "GB", 100 * b, 1073741824)
  {
    if b < 1024 {
      ReadHumanWhole(b, "B");
    } else if b < 1048576 {
      HundredthsIsToFixedChoice(b, 1024);
      ReadHumanScaled(Hundredths(b, 1024), "KB");
    } else if b < 1073741824 {
      HundredthsIsToFixedChoice(b, 1048576);
      ReadHumanScaled(Hundredths(b, 1048576), "MB");
    } else {
      HundredthsIsToFixedChoice(b, 1073741824);
      ReadHumanScaled(Hundredths(b, 1073741824), "GB");
    }
  }

  lemma ToFixed2Examples()
    ensures ToFixed2(100) == "1.00"
    ensures ToFixed2(150) == "1.50"
    ensures ToFixed2(102400) == "1024.00"
  {
    assert DigitChar(0) == '0' && DigitChar(1) == '1' && DigitChar(5) == '5';
    assert DigitChar(2) == '2' && DigitChar(4) == '4';
    assert NatToString(1) == "1";
    assert NatToString(10) == "10";
    assert NatToString(102) == "102";
    assert NatToString(1024) == "1024";
  }

  /** The boundary values: each tier's lower bound is inclusive. */
  lemma FormatterExamples()
    ensures MicrosecondsToHuman(999) == "999μs"
    ensures MicrosecondsToHuman(1000) == "1.00ms"
    ensures MicrosecondsToHuman(1500) == "1.50ms"
    ensures MicrosecondsToHuman(1000000) == "1.00s"
    ensures MilisecondsToHuman(999) == "999ms"
    ensures MilisecondsToHuman(1000) == "1.00s"
    ensures BytesToHuman(1023) == "1023B"
    ensures BytesToHuman(1024) == "1.00KB"
    ensures BytesToHuman(1048576) == "1.00MB"
    ensures BytesToHuman(1073741824) == "1.00GB"
    ensures BytesToHuman(1099511627776) == "1024.00GB"
  {
    ToFixed2Examples();
    assert DigitChar(9) == '9' && DigitChar(0) == '0' && DigitChar(1) == '1' && DigitChar(2) == '2' && DigitChar(3) == '3';
    assert NatToString(99) == "99";
    assert IntToString(999) == "999";
    assert NatToString(10) == "10" && NatToString(102) == "102";
    assert IntToString(1023) == "1023";
    assert Hundredths(1000, 1000) == 100 && Hundredths(1500, 1000) == 150 && Hundredths(1000000, 1000000) == 100;
    assert Hundredths(1024, 1024) == 100 && Hundredths(1048576, 1048576) == 100;
    assert Hundredths(1073741824, 1073741824) == 100 && Hundredths(1099511627776, 1073741824) == 102400;
  }
}
