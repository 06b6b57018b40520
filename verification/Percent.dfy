/**
 Percentages and number texts (frontend/src/display/format.ts): both only move the
 decimal point, so that a value is rounded once, by the formatter.
 */
module Percent {
  import opened Prelude
  import opened Digits
  import opened DecimalText

  function PadEnd(s: string, width: nat): (r: string)
    ensures |r| >= |s| && |r| >= width
  {
    if |s| >= width then s else s + Zeros(width - |s|)
  }

  /** A ratio as a percentage: the point moves two places to the right. */
  function FormatPercent(value: string, digits: int): Result<string, Fault> {
    var t := Trim(value);
    if !IsDecimal(t) then Err(TypeError) else Formatted(ShiftTwo(Split(t)), digits)
  }

  function ShiftTwo(x: Decimal): string
    requires WellFormed(x)
  {
    var padded := PadEnd(x.fracPart, 2);
    Join(if x.negative then "-" else "", x.intPart + padded[..2], padded[2..])
  }

  lemma Hundredfold(num: nat, p: nat)
    requires p >= 1
    ensures num as real / p as real == 100.0 * (num as real / (100 * p) as real)
    ensures num as real / p as real >= 0.0
  {
    var x, y := num as real / p as real, num as real / (100 * p) as real;
    assert (100 * p) as real == 100.0 * p as real;
    assert x * p as real == num as real && y * (100.0 * p as real) == num as real;
    assert (x - 100.0 * y) * p as real == 0.0;
  }

  lemma TenToTheTwo()
    ensures Pow10(0) == 1 && Pow10(1) == 10 && Pow10(2) == 100
  {
    assert Pow10(1) == 10 * Pow10(0);
    assert Pow10(2) == 10 * Pow10(1);
  }

  /** Moving the point multiplies the number by exactly one hundred. */
  lemma ShiftTwoValue(x: Decimal)
    requires WellFormed(x)
    ensures IsDecimal(ShiftTwo(x)) && Trim(ShiftTwo(x)) == ShiftTwo(x)
    ensures NumberOf(ShiftTwo(x)) == 100.0 * Number(x)
  {
    hide Value, Pow10, Split, IsDecimal, Join, Trim;
    var padded := PadEnd(x.fracPart, 2);
    var i, f := x.intPart + padded[..2], padded[2..];
    var sign := if x.negative then "-" else "";
    SplitJoin(sign, i, f);
    TrimJoin(sign, i, f);
    ShiftedMagnitude(x.intPart, x.fracPart);
    assert Magnitude(Decimal(x.negative, i, f)) == Magnitude(Decimal(false, i, f));
    assert Magnitude(x) == Magnitude(Decimal(false, x.intPart, x.fracPart));
  }

  lemma ShiftedMagnitude(i: string, f: string)
    requires AllDigits(i) && i != [] && AllDigits(f)
    ensures var padded := PadEnd(f, 2);
      WellFormed(Decimal(false, i + padded[..2], padded[2..]))
      && Magnitude(Decimal(false, i + padded[..2], padded[2..])) == 100.0 * Magnitude(Decimal(false, i, f))
  {
    hide Value, Pow10;
    var padded := PadEnd(f, 2);
    TenToTheTwo();
    ValueConcat(i, f);
    if |f| >= 2 {
      assert i + padded[..2] + padded[2..] == i + f;
      Pow10Sum(2, |f| - 2);
      Hundredfold(Value(i + f), Pow10(|f| - 2));
    } else {
      var z := Zeros(2 - |f|);
      assert i + padded[..2] + padded[2..] == i + f + z;
      ValueConcat(i + f, z);
      ValueZeros(|z|);
      Pow10Sum(|f|, |z|);
      FillToHundred(Value(i + f), Pow10(|f|), Pow10(|z|));
    }
  }

  lemma FillToHundred(num: nat, p: nat, q: nat)
    requires p >= 1 && p * q == 100
    ensures (num * q) as real / 1.0 == 100.0 * (num as real / p as real)
  {
    var x := num as real / p as real;
    assert x * p as real == num as real;
    assert (num * q) as real == num as real * q as real;
    assert p as real * q as real == (p * q) as real;
    assert x * (p as real * q as real) == (x * p as real) * q as real;
  }

  /** A percentage is one half-up rounding of exactly one hundred times the value. */
  lemma FormatPercentRoundsOnce(value: string, digits: nat)
    requires IsDecimal(Trim(value))
    ensures FormatPercent(value, digits) == Ok(ShownSigned(Rounded(100.0 * NumberOf(value), digits), digits))
  {
    hide ShownSigned, Rounded, IsDecimal, Split, ShiftTwo, Trim;
    ShiftTwoValue(Split(Trim(value)));
  }

  /** The text of a number as `String(number)` gives it, taken apart: sign, digits,
      and an exponent when there is one. */
  datatype NumberText = NumberText(negative: bool, intPart: string, fracPart: string, exponent: Option<(bool, string)>)

  ghost predicate WellFormedNumber(n: NumberText) {
    && AllDigits(n.intPart) && n.intPart != [] && AllDigits(n.fracPart)
    && (n.exponent.Some? ==> AllDigits(n.exponent.value.1) && n.exponent.value.1 != [])
  }

  /** How such a text is written. */
  function Written(n: NumberText): string {
    Join(if n.negative then "-" else "", n.intPart, n.fracPart)
    + match n.exponent
      case None => ""
      case Some((negative, digits)) => "e" + (if negative then "-" else "+") + digits
  }

  /** Unfolds a negative exponent by moving the point to the left; every other text is
      returned as it is. */
  function ToDecimalInput(n: NumberText): string
    requires WellFormedNumber(n)
  {
    match n.exponent
    case None => Written(n)
    case Some((negative, e)) =>
      if !negative then Written(n) else
      (if n.negative then "-" else "") + Unfolded(n.intPart, n.fracPart, Value(e))
  }

  /** The digits with the point moved `e` places to the left. */
  function Unfolded(intPart: string, fracPart: string, e: nat): string
    requires intPart != []
  {
    var digits := intPart + fracPart;
    var point := |intPart| - e;
    if point > 0 then digits[..point] + "." + digits[point..] else "0." + Zeros(-point) + digits
  }

  /** The number such a text denotes. */
  ghost function NumberTextValue(n: NumberText): real
    requires WellFormedNumber(n)
  {
    var m := Magnitude(Decimal(n.negative, n.intPart, n.fracPart));
    var scaled := match n.exponent
      case None => m
      case Some((negative, e)) => if negative then m / Pow10(Value(e)) as real else m * Pow10(Value(e)) as real;
    if n.negative then -scaled else scaled
  }

  /** The texts that can be unfolded: those without an exponent, and those with a negative one
      - except that "12e-0", an exponent of zero on a mantissa without fraction, becomes "12."
      which the formatter refuses. */
  ghost predicate Unfolds(n: NumberText)
    requires WellFormedNumber(n)
  {
    match n.exponent
    case None => true
    case Some((negative, e)) => negative && (Value(e) > 0 || n.fracPart != [])
  }

  /** The formatter accepts exactly these texts after unfolding, and reads exactly the
      number that was written; a positive exponent is left in the text and refused. */
  lemma ToDecimalInputExact(n: NumberText)
    requires WellFormedNumber(n)
    ensures Trim(ToDecimalInput(n)) == ToDecimalInput(n)
    ensures IsDecimal(ToDecimalInput(n)) <==> Unfolds(n)
    ensures Unfolds(n) ==> NumberOf(ToDecimalInput(n)) == NumberTextValue(n)
  {
    hide Value, Pow10, IsDecimal, Split, Trim, Unfolded, IsSpace;
    var sign := if n.negative then "-" else "";
    if n.exponent.None? {
      WrittenPlain(n);
    } else if !n.exponent.value.0 {
      PositiveExponent(n);
    } else {
      var e := Value(n.exponent.value.1);
      if e == 0 && n.fracPart == [] {
        TrailingPoint(sign, n.intPart);
      } else {
        NegativeExponent(n);
      }
    }
  }

  lemma WrittenPlain(n: NumberText)
    requires WellFormedNumber(n) && n.exponent.None?
    ensures Trim(ToDecimalInput(n)) == ToDecimalInput(n) && IsDecimal(ToDecimalInput(n))
    ensures NumberOf(ToDecimalInput(n)) == NumberTextValue(n)
  {
    hide Value, Pow10, IsDecimal, Split, Trim, Magnitude;
    var sign := if n.negative then "-" else "";
    assert ToDecimalInput(n) == Join(sign, n.intPart, n.fracPart);
    SplitJoin(sign, n.intPart, n.fracPart);
    TrimJoin(sign, n.intPart, n.fracPart);
  }

  lemma NegativeExponent(n: NumberText)
    requires WellFormedNumber(n) && n.exponent.Some? && n.exponent.value.0 && Unfolds(n)
    ensures Trim(ToDecimalInput(n)) == ToDecimalInput(n) && IsDecimal(ToDecimalInput(n))
    ensures NumberOf(ToDecimalInput(n)) == NumberTextValue(n)
  {
    hide Value, Pow10, IsDecimal, Split, Trim, Unfolded;
    var e := Value(n.exponent.value.1);
    var sign := if n.negative then "-" else "";
    var i, f := UnfoldedParts(n.intPart, n.fracPart, e);
    UnfoldedPieces(sign, i, f);
    UnfoldedMagnitude(n.intPart, n.fracPart, e, i, f);
    assert Magnitude(Decimal(n.negative, i, f)) == Magnitude(Decimal(false, i, f));
    assert Magnitude(Decimal(n.negative, n.intPart, n.fracPart)) == Magnitude(Decimal(false, n.intPart, n.fracPart));
  }

  lemma PositiveExponent(n: NumberText)
    requires WellFormedNumber(n) && n.exponent.Some? && !n.exponent.value.0
    ensures Trim(ToDecimalInput(n)) == ToDecimalInput(n) && !IsDecimal(ToDecimalInput(n))
  {
    hide IsDecimal, Trim;
    var t, front := Written(n), Join(if n.negative then "-" else "", n.intPart, n.fracPart);
    var digits := n.exponent.value.1;
    assert t == front + "e+" + digits;
    assert t[0] == front[0] && t[|t| - 1] == digits[|digits| - 1];
    assert t[|front|] == 'e';
    TrimFirm(t);
    if IsDecimal(t) {
      NoExponent(t, |front|);
    }
  }

  lemma TrimFirm(t: string)
    requires t != [] && !IsSpace(t[0]) && !IsSpace(t[|t| - 1])
    ensures Trim(t) == t
  {
  }

  lemma NoExponent(t: string, j: nat)
    requires IsDecimal(t) && j < |t|
    ensures t[j] != 'e'
  {
    hide IsDecimal, Split;
    JoinSplit(t);
    var sign :| sign in {"", "+", "-"} && t == Join(sign, Split(t).intPart, Split(t).fracPart);
    var i, f := Split(t).intPart, Split(t).fracPart;
    assert f != [] ==> t == sign + i + ("." + f);
  }

  /** In front of and behind the moved point. */
  lemma UnfoldedParts(intPart: string, fracPart: string, e: nat) returns (i: string, f: string)
    requires AllDigits(intPart) && intPart != [] && AllDigits(fracPart) && (e > 0 || fracPart != [])
    ensures AllDigits(i) && i != [] && AllDigits(f) && f != [] && |f| == |fracPart| + e
    ensures Unfolded(intPart, fracPart, e) == i + "." + f
    ensures i + f == (if |intPart| > e then [] else Zeros(e + 1 - |intPart|)) + (intPart + fracPart)
  {
    var digits := intPart + fracPart;
    var point := |intPart| - e;
    if point > 0 {
      i, f := digits[..point], digits[point..];
      assert i + f == [] + digits;
    } else {
      i, f := "0", Zeros(-point) + digits;
      assert "0." + Zeros(-point) + digits == "0" + "." + f;
      assert "0" + f == Zeros(1 - point) + digits;
    }
  }

  lemma LastIsDigit(t: string)
    requires IsDecimal(t)
    ensures t != [] && IsDigit(t[|t| - 1])
  {
    var u, k := Unsigned(t), Dot(Unsigned(t));
    assert t[|t| - 1] == u[|u| - 1];
    if k < |u| {
      assert u[|u| - 1] == u[k + 1..][|u| - k - 2];
    } else {
      assert u[|u| - 1] == u[..k][|u| - 1];
    }
  }

  lemma TrailingPoint(sign: string, digits: string)
    requires sign in {"", "-"} && AllDigits(digits) && digits != []
    ensures Unfolded(digits, [], 0) == digits + "."
    ensures !IsDecimal(sign + Unfolded(digits, [], 0))
    ensures Trim(sign + Unfolded(digits, [], 0)) == sign + Unfolded(digits, [], 0)
  {
    var t := sign + Unfolded(digits, [], 0);
    assert t[|t| - 1] == '.';
    assert t[0] == if sign == "-" then '-' else digits[0];
    TrimFirm(t);
    if IsDecimal(t) {
      LastIsDigit(t);
    }
  }

  lemma UnfoldedPieces(sign: string, i: string, f: string)
    requires sign in {"", "-"} && AllDigits(i) && i != [] && AllDigits(f) && f != []
    ensures Join(sign, i, f) == sign + (i + "." + f)
    ensures IsDecimal(Join(sign, i, f)) && Trim(Join(sign, i, f)) == Join(sign, i, f)
    ensures Split(Join(sign, i, f)) == Decimal(sign == "-", i, f)
  {
    SplitJoin(sign, i, f);
    TrimJoin(sign, i, f);
  }

  /** Where the point lands, the number is the mantissa divided by 10^e. */
  lemma UnfoldedMagnitude(intPart: string, fracPart: string, e: nat, i: string, f: string)
    requires AllDigits(intPart) && intPart != [] && AllDigits(fracPart) && AllDigits(i) && i != [] && AllDigits(f)
    requires |f| == |fracPart| + e
    requires i + f == (if |intPart| > e then [] else Zeros(e + 1 - |intPart|)) + (intPart + fracPart)
    ensures Magnitude(Decimal(false, i, f)) == Magnitude(Decimal(false, intPart, fracPart)) / Pow10(e) as real
  {
    hide Value, Pow10;
    ValueConcat(intPart, fracPart);
    if |intPart| <= e {
      ValueZeros(e + 1 - |intPart|);
      ValueConcat(Zeros(e + 1 - |intPart|), intPart + fracPart);
    } else {
      assert [] + (intPart + fracPart) == intPart + fracPart;
    }
    Pow10Sum(|fracPart|, e);
    DivideTwice(Value(intPart + fracPart), Pow10(|fracPart|), Pow10(e));
  }

  lemma DivideTwice(num: nat, p: nat, q: nat)
    requires p >= 1 && q >= 1
    ensures p * q >= 1
    ensures num as real / (p * q) as real == num as real / p as real / q as real
  {
    var x, y := num as real / p as real, num as real / p as real / q as real;
    assert (p * q) as real == p as real * q as real;
    assert y * q as real == x && x * p as real == num as real;
    assert y * (p as real * q as real) == num as real;
  }

  lemma PercentRefuses(value: string, digits: nat)
    requires !IsDecimal(Trim(value))
    ensures FormatPercent(value, digits) == Err(TypeError)
  {
    hide IsDecimal, Trim;
  }

  /** A number text shown as a percentage is rounded once only: unfolding the exponent and
      moving the point are both exact. Every other text throws. */
  lemma PercentOfNumberText(n: NumberText, digits: nat)
    requires WellFormedNumber(n)
    ensures FormatPercent(ToDecimalInput(n), digits)
         == if Unfolds(n) then Ok(ShownSigned(Rounded(100.0 * NumberTextValue(n), digits), digits))
            else Err(TypeError)
  {
    hide *;
    ToDecimalInputExact(n);
    if Unfolds(n) {
      FormatPercentRoundsOnce(ToDecimalInput(n), digits);
    } else {
      PercentRefuses(ToDecimalInput(n), digits);
    }
  }
}
