/**
 The fixed-digit formatter of the display layer, character by character
 (frontend/src/display/format.ts), proved equal to the arithmetic of module
 DecimalText.
 */
module Format {
  import opened Prelude
  import opened Digits
  import opened DecimalText

  function StripLeadingZeros(s: string): (r: string)
    requires AllDigits(s)
    ensures Canonical(r)
    ensures Value(r) == Value(s)
  {
    if s == [] then "0"
    else if s[0] == '0' && |s| > 1 then
      assert s == "0" + s[1..];
      ValueConcat("0", s[1..]);
      StripLeadingZeros(s[1..])
    else s
  }

  predicate IsZeroText(body: string) {
    || body == "0"
    || (|body| >= 2 && body[0] == '0' && body[1] == '.' && forall i :: 2 <= i < |body| ==> body[i] == '0')
  }

  function Nines(n: nat): (s: string)
    ensures AllDigits(s) && |s| == n
  {
    seq(n, i => '9')
  }

  lemma {:induction false} ValueNines(n: nat)
    ensures Value(Nines(n)) + 1 == Pow10(n)
  {
    if n > 0 {
      assert Nines(n)[..n - 1] == Nines(n - 1);
      ValueNines(n - 1);
    }
  }

  /** Replacing `c` followed by nines by `c + 1` followed by zeros adds one. */
  lemma CarryValue(p: string, c: char, m: nat)
    requires AllDigits(p) && IsDigit(c) && c != '9'
    ensures AllDigits(p + [c] + Nines(m)) && AllDigits(p + [DigitChar(DigitValue(c) + 1)] + Zeros(m))
    ensures Value(p + [DigitChar(DigitValue(c) + 1)] + Zeros(m)) == Value(p + [c] + Nines(m)) + 1
  {
    var d := DigitChar(DigitValue(c) + 1);
    assert (p + [c])[..|p|] == p && (p + [d])[..|p|] == p;
    ValueConcat(p + [c], Nines(m));
    ValueConcat(p + [d], Zeros(m));
    ValueNines(m);
    ValueZeros(m);
    CarryProduct(Value(p + [c]), Value(p + [d]), Pow10(m), Value(Nines(m)));
  }

  lemma CarryProduct(v: nat, w: nat, power: nat, nines: nat)
    requires w == v + 1 && nines + 1 == power
    ensures w * power == v * power + nines + 1
  {
  }

  /** What the walk from the right has done when it stops at position `i`. */
  lemma CarryAt(s: string, i: nat, r: string)
    requires AllDigits(s) && i < |s| == |r| && r[..i] == s[..i]
    requires s[i] != '9' && r[i] == DigitChar(DigitValue(s[i]) + 1)
    requires forall k :: i < k < |s| ==> s[k] == '9' && r[k] == '0'
    ensures AllDigits(r) && Value(r) == Value(s) + 1 < Pow10(|s|)
  {
    var m := |s| - 1 - i;
    assert s == s[..i] + [s[i]] + Nines(m);
    assert r == s[..i] + [r[i]] + Zeros(m);
    CarryValue(s[..i], s[i], m);
    ValueBound(r);
  }

  /** What is left when the walk runs off the left end. */
  lemma CarryOut(n: nat)
    ensures AllDigits("1" + Zeros(n)) && Value("1" + Zeros(n)) == Value(Nines(n)) + 1 == Pow10(n)
  {
    ValueNines(n);
    ValueZeros(n);
    assert "1"[..0] == [];
    ValueConcat("1", Zeros(n));
  }

  /** Adds one to a digit string, editing the characters in place from the right. */
  method AddOne(digitsOnly: string) returns (r: string)
    requires AllDigits(digitsOnly)
    ensures AllDigits(r) && Value(r) == Value(digitsOnly) + 1
    ensures |r| == if Value(digitsOnly) + 1 == Pow10(|digitsOnly|) then |digitsOnly| + 1 else |digitsOnly|
  {
    var n := |digitsOnly|;
    var chars := new char[n](i requires 0 <= i < n => digitsOnly[i]);
    var i := n - 1;
    while i >= 0
      invariant -1 <= i < n
      invariant forall k :: 0 <= k <= i ==> chars[k] == digitsOnly[k]
      invariant forall k :: i < k < n ==> chars[k] == '0' && digitsOnly[k] == '9'
    {
      if chars[i] == '9' {
        chars[i] := '0';
        i := i - 1;
      } else {
        chars[i] := DigitChar(DigitValue(chars[i]) + 1);
        CarryAt(digitsOnly, i, chars[..]);
        return chars[..];
      }
    }
    assert digitsOnly == Nines(n) && chars[..] == Zeros(n);
    CarryOut(n);
    r := "1" + chars[..];
  }

  /** Gluing a canonical integer part and a fraction is how `Shown` reads the number. */
  lemma BodyIsShown(negative: bool, i: string, f: string)
    requires Canonical(i) && AllDigits(f)
    ensures AllDigits(i + f)
    ensures var body := if f == [] then i else i + "." + f;
      Shown(negative, Value(i + f), |f|) == if negative && !IsZeroText(body) then "-" + body else body
  {
    ZeroAssembled(i, f);
    BodyIsJoin(i, f);
    ShownAssembled(negative, i, f);
  }

  lemma BodyIsJoin(i: string, f: string)
    ensures var body := if f == [] then i else i + "." + f;
      Join("", i, f) == body && Join("-", i, f) == "-" + body
  {
    if f != [] {
      assert "-" + (i + "." + f) == "-" + i + ("." + f);
      assert "" + i + ("." + f) == i + "." + f;
    }
  }

  lemma ZeroAssembled(i: string, f: string)
    requires Canonical(i) && AllDigits(f)
    ensures AllDigits(i + f)
    ensures IsZeroText(if f == [] then i else i + "." + f) <==> Value(i + f) == 0
  {
    ZeroTextSplit(i, f);
    ZeroValue(i + f);
    assert forall k :: 0 <= k < |f| ==> (i + f)[|i| + k] == f[k];
    assert forall k :: 0 <= k < |i| ==> (i + f)[k] == i[k];
  }

  lemma {:induction false} ZeroValue(s: string)
    requires AllDigits(s)
    ensures Value(s) == 0 <==> forall i :: 0 <= i < |s| ==> s[i] == '0'
  {
    if s != [] {
      ZeroValue(s[..|s| - 1]);
      assert forall i :: 0 <= i < |s| - 1 ==> s[..|s| - 1][i] == s[i];
    }
  }

  lemma ZeroTextSplit(i: string, f: string)
    requires Canonical(i) && AllDigits(f)
    ensures IsZeroText(if f == [] then i else i + "." + f) <==> i == "0" && forall k :: 0 <= k < |f| ==> f[k] == '0'
  {
    var body := if f == [] then i else i + "." + f;
    if f != [] {
      assert forall k :: 0 <= k < |f| ==> body[|i| + 1 + k] == f[k];
      if IsZeroText(body) {
        assert |i| == 1 by {
          assert body[0] == i[0];
          assert body[|i|] == '.';
        }
        assert forall k :: 0 <= k < |f| ==> f[k] == body[2 + k];
      }
    }
  }

  lemma FloorIs(y: real, n: int)
    requires n as real <= y < n as real + 1.0
    ensures y.Floor == n
  {
  }

  /** Rounding num / p to more digits than p has only scales: 10^digits = p * q. */
  lemma HalfUpScaled(num: nat, p: nat, q: nat, digits: nat)
    requires p >= 1 && Pow10(digits) == p * q
    ensures num as real / p as real >= 0.0
    ensures HalfUp(num as real / p as real, digits) == num * q
  {
    ScaleUp(num, p, q);
    HalfUpWhole(num as real / p as real, digits, num * q);
  }

  lemma HalfUpWhole(m: real, digits: nat, n: nat)
    requires m >= 0.0 && m * Pow10(digits) as real == n as real
    ensures HalfUp(m, digits) == n
  {
    FloorIs(n as real + 0.5, n);
  }

  lemma ScaleUp(v: nat, p: nat, q: nat)
    requires p >= 1
    ensures v as real / p as real * (p * q) as real == (v * q) as real
    ensures v as real / p as real >= 0.0
  {
    var x := v as real / p as real;
    assert x * p as real == v as real;
    assert (p * q) as real == p as real * q as real;
    assert (v * q) as real == v as real * q as real;
    assert x * (p as real * q as real) == (x * p as real) * q as real;
  }

  /** Rounding (kept · q + t) / (p · q) to digits with 10^digits = p looks at t only. */
  lemma HalfUpCut(kept: nat, t: nat, p: nat, q: nat, digits: nat)
    requires q >= 1 && t < q && p == Pow10(digits)
    ensures (kept * q + t) as real / (p * q) as real >= 0.0
    ensures HalfUp((kept * q + t) as real / (p * q) as real, digits) == kept + (if 2 * t >= q then 1 else 0)
  {
    ScaleDown(kept * q + t, p, q);
    FloorOfFraction(kept, t, q);
  }

  lemma ScaleDown(v: nat, p: nat, q: nat)
    requires p >= 1 && q >= 1
    ensures v as real / (p * q) as real * p as real == v as real / q as real
    ensures v as real / (p * q) as real >= 0.0
  {
    var x, y := v as real / (p * q) as real, v as real / q as real;
    assert (p * q) as real == p as real * q as real;
    assert x * (p as real * q as real) == v as real;
    assert (x * p as real) * q as real == y * q as real;
    assert y * q as real == v as real;
  }

  lemma RealSum(k: int, q: int, t: int)
    ensures (k * q + t) as real == k as real * q as real + t as real
  {
    assert (k * q) as real == k as real * q as real;
  }

  lemma FractionParts(k: real, t: real, q: real)
    requires q > 0.0 && 0.0 <= t < q
    ensures (k * q + t) / q == k + t / q
    ensures 0.0 <= t / q < 1.0
    ensures 2.0 * t >= q <==> t / q >= 0.5
  {
    var r := t / q;
    assert r * q == t;
    Quotient(k * q + t, q, k + r);
    CompareProducts(r, 0.0, q);
    CompareProducts(r, 1.0, q);
    CompareProducts(r, 0.5, q);
  }

  lemma Quotient(a: real, q: real, x: real)
    requires q > 0.0 && a == x * q
    ensures a / q == x
  {
  }

  lemma FloorOfFraction(k: nat, t: nat, q: nat)
    requires q >= 1 && t < q
    ensures ((k * q + t) as real / q as real + 0.5).Floor == k + (if 2 * t >= q then 1 else 0)
  {
    var y, r := (k * q + t) as real / q as real, t as real / q as real;
    RealSum(k, q, t);
    assert y == (k as real * q as real + t as real) / q as real;
    FractionParts(k as real, t as real, q as real);
    assert y == k as real + r && 0.0 <= r < 1.0;
    assert 2 * t >= q <==> 2.0 * t as real >= q as real;
    RoundFraction(y, k, r);
  }

  lemma RoundFraction(y: real, k: nat, r: real)
    requires y == k as real + r && 0.0 <= r < 1.0
    ensures (y + 0.5).Floor == k + (if r >= 0.5 then 1 else 0)
  {
    FloorIs(y + 0.5, k + (if r >= 0.5 then 1 else 0));
  }

  /** Enough digits: rounding only appends zeros. */
  lemma RoundPadded(i: string, f: string, digits: nat)
    requires AllDigits(i) && i != [] && AllDigits(f) && |f| <= digits
    ensures AllDigits(i + (f + Zeros(digits - |f|)))
    ensures HalfUp(Magnitude(Decimal(false, i, f)), digits) == Value(i + (f + Zeros(digits - |f|)))
  {
    var z := Zeros(digits - |f|);
    ValueConcat(i, f);
    ValueConcat(i + f, z);
    ValueZeros(|z|);
    assert i + (f + z) == i + f + z;
    Pow10Sum(|f|, |z|);
    HalfUpScaled(Value(i + f), Pow10(|f|), Pow10(|z|), digits);
  }

  /** Too many digits: the first dropped digit alone decides the rounding. */
  lemma RoundCut(i: string, f: string, digits: nat)
    requires AllDigits(i) && i != [] && AllDigits(f) && |f| > digits
    ensures AllDigits(i + f[..digits])
    ensures HalfUp(Magnitude(Decimal(false, i, f)), digits)
         == Value(i + f[..digits]) + (if f[digits] >= '5' then 1 else 0)
  {
    var keep, rest := f[..digits], f[digits..];
    ValueConcat(i, keep);
    ValueConcat(i + keep, rest);
    assert i + f == i + keep + rest;
    ValueBound(rest);
    FirstDigitDecides(rest);
    Pow10Sum(digits, |rest|);
    HalfUpCut(Value(i + keep), Value(rest), Pow10(digits), Pow10(|rest|), digits);
  }

  lemma FirstDigitDecides(rest: string)
    requires AllDigits(rest) && rest != []
    ensures 2 * Value(rest) >= Pow10(|rest|) <==> rest[0] >= '5'
  {
    assert rest == rest[..1] + rest[1..];
    assert rest[..1][..0] == [];
    ValueConcat(rest[..1], rest[1..]);
    ValueBound(rest[1..]);
    Halves(DigitValue(rest[0]), Pow10(|rest| - 1), Value(rest[1..]));
  }

  lemma Halves(d: nat, p: nat, t: nat)
    requires t < p
    ensures 2 * (d * p + t) >= 10 * p <==> d >= 5
  {
    assert d >= 5 ==> d * p >= 5 * p;
    assert d <= 4 ==> d * p <= 4 * p;
  }

  /** The displayed text is decided by sign and rounded magnitude. */
  lemma FormattedFromMagnitude(value: string, digits: nat)
    requires IsDecimal(Trim(value))
    ensures var x := Split(Trim(value));
      Formatted(value, digits) == Ok(Shown(x.negative, HalfUp(Magnitude(x), digits), digits))
  {
    var x := Split(Trim(value));
    SignedFromMagnitude(x.negative, Magnitude(x), digits);
    assert Number(x) == if x.negative then -Magnitude(x) else Magnitude(x);
  }

  lemma SignedFromMagnitude(negative: bool, m: real, digits: nat)
    requires m >= 0.0
    ensures ShownSigned(Rounded(if negative then -m else m, digits), digits) == Shown(negative, HalfUp(m, digits), digits)
  {
    RoundedSign(negative, m, digits);
    SignedUnits(negative, HalfUp(m, digits), digits);
  }

  lemma RoundedSign(negative: bool, m: real, digits: nat)
    requires m >= 0.0
    ensures Rounded(if negative then -m else m, digits) == if negative then -(HalfUp(m, digits) as int) else HalfUp(m, digits)
  {
    if m == 0.0 {
      HalfUpOfZero(m, digits);
      HalfUpOfZero(-m, digits);
    } else {
      assert -(-m) == m;
    }
  }

  lemma HalfUpOfZero(m: real, digits: nat)
    requires m == 0.0
    ensures HalfUp(m, digits) == 0
  {
    assert m * Pow10(digits) as real == 0.0;
  }

  /** The last lines of the formatter: whatever the rounding left in front of and
      behind the point is cleaned up into the shown text. */
  lemma Finish(negative: bool, i: string, f: string)
    requires AllDigits(i) && AllDigits(f)
    ensures AllDigits(i + f)
    ensures var body := if f == [] then StripLeadingZeros(i) else StripLeadingZeros(i) + "." + f;
      Shown(negative, Value(i + f), |f|) == if negative && !IsZeroText(body) then "-" + body else body
  {
    ValueConcat(i, f);
    ValueConcat(StripLeadingZeros(i), f);
    BodyIsShown(negative, StripLeadingZeros(i), f);
  }

  /** Digits of the rounded magnitude, as the program obtains them: padding, cutting, or
      cutting and carrying. */
  method RoundDigits(intPart: string, fracPart: string, digits: nat)
      returns (resultInt: string, resultFrac: string)
    requires WellFormed(Decimal(false, intPart, fracPart))
    ensures AllDigits(resultInt + resultFrac) && AllDigits(resultInt) && AllDigits(resultFrac)
    ensures |resultFrac| == digits
    ensures Value(resultInt + resultFrac) == HalfUp(Magnitude(Decimal(false, intPart, fracPart)), digits)
  {
    resultInt := intPart;
    if |fracPart| <= digits {
      resultFrac := fracPart + Zeros(digits - |fracPart|);
      RoundPadded(intPart, fracPart, digits);
    } else {
      var keep := fracPart[..digits];
      RoundCut(intPart, fracPart, digits);
      if fracPart[digits] >= '5' {
        var carried := AddOne(resultInt + keep);
        var cut := |carried| - digits;
        resultInt := if digits == 0 then carried else carried[..cut];
        resultFrac := if digits == 0 then [] else carried[cut..];
        assert resultInt + resultFrac == carried;
      } else {
        resultFrac := keep;
      }
    }
  }

  /** The formatter as the program runs it, on characters only. */
  method FormatDecimalString(value: string, digits: int) returns (r: Result<string, Fault>)
    ensures r == Formatted(value, digits)
  {
    if digits < 0 {
      return Err(RangeError);
    }
    var trimmed := Trim(value);
    if !IsDecimal(trimmed) {
      return Err(TypeError);
    }
    var x := Split(trimmed);
    var resultInt, resultFrac := RoundDigits(x.intPart, x.fracPart, digits);
    FormattedFromMagnitude(value, digits);
    Finish(x.negative, resultInt, resultFrac);
    assert Magnitude(x) == Magnitude(Decimal(false, x.intPart, x.fracPart));
    resultInt := StripLeadingZeros(resultInt);
    var body := if digits == 0 then resultInt else resultInt + "." + resultFrac;
    r := Ok(if x.negative && !IsZeroText(body) then "-" + body else body);
  }
}
