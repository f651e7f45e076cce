/**
 * `Double.parseDouble` on strings made only of decimal digits and points,
 * which are the only strings the score parser hands to it. Values are exact
 * decimals (`real`); rounding to the nearest `double` is not modelled.
 */
module JavaDouble {
  import opened Wrappers

  predicate IsDigit(c: char) {
    '0' <= c <= '9'
  }

  /** The characters the score parser keeps: digits and the decimal point. */
  predicate IsNumeric(c: char) {
    IsDigit(c) || c == '.'
  }

  predicate AllNumeric(s: string) {
    forall i :: 0 <= i < |s| ==> IsNumeric(s[i])
  }

  function DigitValue(c: char): (d: nat)
    requires IsDigit(c)
    ensures d <= 9
  {
    (c as int) - ('0' as int)
  }

  function Pow10(n: nat): (p: nat)
    ensures p >= 1
  {
    if n == 0 then 1 else 10 * Pow10(n - 1)
  }

  predicate HasDigit(s: string) {
    exists i :: 0 <= i < |s| && IsDigit(s[i])
  }

  /** How many decimal points `s` holds. */
  function PointCount(s: string): nat {
    multiset(s)['.']
  }

  // ---------------------------------------------------------------------------
  // The value a numeric string denotes
  // ---------------------------------------------------------------------------

  /** The digits of `s` read in order as one natural number, points skipped. */
  function Mantissa(s: string): nat
    requires AllNumeric(s)
  {
    if |s| == 0 then 0
    else
      var last := s[|s| - 1];
      if IsDigit(last) then Mantissa(s[..|s| - 1]) * 10 + DigitValue(last)
      else Mantissa(s[..|s| - 1])
  }

  /** How many digits of `s` come after its first decimal point. */
  function FractionDigits(s: string): nat
    requires AllNumeric(s)
  {
    if |s| == 0 then 0
    else
      var init := s[..|s| - 1];
      FractionDigits(init) + (if '.' in init && IsDigit(s[|s| - 1]) then 1 else 0)
  }

  /**
   * What a digits-and-points string denotes as a Java floating-point literal:
   * nothing unless it has at least one digit and at most one point; otherwise
   * its digits as an integer, divided by ten for each digit after the point.
   */
  function DecimalValue(s: string): Option<real>
    requires AllNumeric(s)
  {
    if !HasDigit(s) || PointCount(s) > 1 then None
    else Some(Mantissa(s) as real / Pow10(FractionDigits(s)) as real)
  }

  // ---------------------------------------------------------------------------
  // The reader
  // ---------------------------------------------------------------------------

  /**
   * `Double.parseDouble(s)` for a digits-and-points `s`: `None` where Java
   * throws `NumberFormatException`.
   */
  function ParseDouble(s: string): Option<real>
    requires AllNumeric(s)
  {
    ReadFrom(s, 0, 0, false, 0, false)
  }

  /**
   * Reads `s` left to right from offset `i`, having accumulated the digits
   * before `i` in `mantissa`, whether a point was seen, how many digits
   * followed it (`scale`) and whether any digit was seen. A second point is
   * a format error; so is reaching the end without a digit.
   */
  function ReadFrom(s: string, i: nat, mantissa: nat, seenPoint: bool, scale: nat, seenDigit: bool): Option<real>
    requires AllNumeric(s) && i <= |s|
    decreases |s| - i
  {
    if i == |s| then
      if seenDigit then Some(mantissa as real / Pow10(scale) as real) else None
    else if s[i] == '.' then
      if seenPoint then None else ReadFrom(s, i + 1, mantissa, true, scale, seenDigit)
    else
      ReadFrom(s, i + 1, mantissa * 10 + DigitValue(s[i]), seenPoint,
               if seenPoint then scale + 1 else scale, true)
  }

  /** The reader's accumulators describe the prefix read so far. */
  ghost predicate ReadState(s: string, i: nat, mantissa: nat, seenPoint: bool, scale: nat, seenDigit: bool)
    requires AllNumeric(s) && i <= |s|
  {
    && mantissa == Mantissa(s[..i])
    && seenPoint == ('.' in s[..i])
    && scale == FractionDigits(s[..i])
    && seenDigit == HasDigit(s[..i])
    && PointCount(s[..i]) <= 1
  }

  /** What reading one more character adds to the facts about the prefix read. */
  lemma {:induction false} PrefixStep(s: string, i: nat)
    requires AllNumeric(s) && i < |s|
    ensures var p := s[..i]; var n := s[..i + 1];
      && n[..|n| - 1] == p && n[|n| - 1] == s[i]
      && PointCount(n) == PointCount(p) + (if s[i] == '.' then 1 else 0)
      && PointCount(n) <= PointCount(s)
      && (HasDigit(n) <==> HasDigit(p) || IsDigit(s[i]))
      && (('.' in n) <==> ('.' in p) || s[i] == '.')
  {
    var p := s[..i];
    var n := s[..i + 1];
    assert n == p + [s[i]];
    assert s == n + s[i + 1..];
    assert multiset(s) == multiset(n) + multiset(s[i + 1..]);
    if HasDigit(n) && !IsDigit(s[i]) {
      var j :| 0 <= j < |n| && IsDigit(n[j]);
      assert p[j] == n[j];
    }
    if HasDigit(p) {
      var j :| 0 <= j < |p| && IsDigit(p[j]);
      assert n[j] == p[j];
    }
  }

  lemma {:induction false} ReadFromCorrect(s: string, i: nat, mantissa: nat, seenPoint: bool, scale: nat, seenDigit: bool)
    requires AllNumeric(s) && i <= |s|
    requires ReadState(s, i, mantissa, seenPoint, scale, seenDigit)
    ensures ReadFrom(s, i, mantissa, seenPoint, scale, seenDigit) == DecimalValue(s)
    decreases |s| - i
  {
    if i == |s| {
      assert s[..i] == s;
    } else {
      PrefixStep(s, i);
      if s[i] == '.' {
        if !seenPoint {
          ReadFromCorrect(s, i + 1, mantissa, true, scale, seenDigit);
        }
      } else {
        ReadFromCorrect(s, i + 1, mantissa * 10 + DigitValue(s[i]), seenPoint,
                        if seenPoint then scale + 1 else scale, true);
      }
    }
  }

  /** The reader computes exactly the value the string denotes. */
  lemma {:induction false} ParseDoubleCorrect(s: string)
    requires AllNumeric(s)
    ensures ParseDouble(s) == DecimalValue(s)
  {
    assert s[..0] == "";
    ReadFromCorrect(s, 0, 0, false, 0, false);
  }

  /** A parsed value is never negative: the reader has no sign to read. */
  lemma {:induction false} DecimalValueNonNegative(s: string)
    requires AllNumeric(s) && DecimalValue(s).Some?
    ensures DecimalValue(s).value >= 0.0
  {
    var m := Mantissa(s) as real;
    var p := Pow10(FractionDigits(s)) as real;
    assert m >= 0.0 && p >= 1.0;
    assert m / p >= 0.0;
  }

  /** A string of digits alone denotes its digits read as a whole number. */
  lemma {:induction false} DigitsOnlyValue(s: string)
    requires |s| > 0 && forall i :: 0 <= i < |s| ==> IsDigit(s[i])
    ensures AllNumeric(s) && DecimalValue(s) == Some(Mantissa(s) as real)
  {
    assert AllNumeric(s);
    assert HasDigit(s) by { assert IsDigit(s[0]); }
    assert PointCount(s) == 0 by { assert '.' !in s; }
    NoPointNoFraction(s);
    assert Pow10(FractionDigits(s)) == 1;
    assert Mantissa(s) as real / 1 as real == Mantissa(s) as real;
  }

  lemma {:induction false} NoPointNoFraction(s: string)
    requires AllNumeric(s) && '.' !in s
    ensures FractionDigits(s) == 0
  {
    if |s| > 0 {
      assert '.' !in s[..|s| - 1];
      NoPointNoFraction(s[..|s| - 1]);
    }
  }
}
