/**
 Arithmetic on displayed values (frontend/src/display/decimal.ts): a displayed
 text is lifted to an integer number of units of its last digit and back.
 */
module FixedDecimal {
  import opened Prelude
  import opened Digits
  import opened DecimalText

  function OnlyDigits(s: string): (r: string)
    ensures AllDigits(r)
  {
    if s == [] then []
    else if IsDigit(s[0]) then [s[0]] + OnlyDigits(s[1..])
    else OnlyDigits(s[1..])
  }

  /** The displayed value as an integer: "106.2" with one digit is 1062. */
  function DisplayScaled(value: string, digits: int): Result<int, Fault> {
    match Formatted(value, digits)
    case Err(e) => Err(e)
    case Ok(fixed) =>
      var magnitude: int := Value(OnlyDigits(fixed));
      Ok(if fixed != [] && fixed[0] == '-' then -magnitude else magnitude)
  }

  /** The integer back as text: 53 with one digit is "5.3". */
  function Unscale(scaled: int, digits: nat): string {
    var absolute := Wide(if scaled < 0 then -scaled else scaled, digits + 1);
    var cut := |absolute| - digits;
    var body := if digits == 0 then absolute else absolute[..cut] + "." + absolute[cut..];
    if scaled < 0 then "-" + body else body
  }

  function SubtractFixed(a: string, b: string, digits: int): Result<string, Fault> {
    match (DisplayScaled(a, digits), DisplayScaled(b, digits))
    case (Err(e), _) => Err(e)
    case (_, Err(e)) => Err(e)
    case (Ok(m), Ok(n)) => if digits < 0 then Err(RangeError) else Ok(Unscale(m - n, digits))
  }

  function AddFixed(a: string, b: string, digits: int): Result<string, Fault> {
    match (DisplayScaled(a, digits), DisplayScaled(b, digits))
    case (Err(e), _) => Err(e)
    case (_, Err(e)) => Err(e)
    case (Ok(m), Ok(n)) => if digits < 0 then Err(RangeError) else Ok(Unscale(m + n, digits))
  }

  function CompareFixed(a: string, b: string, digits: int): Result<int, Fault> {
    match (DisplayScaled(a, digits), DisplayScaled(b, digits))
    case (Err(e), _) => Err(e)
    case (_, Err(e)) => Err(e)
    case (Ok(m), Ok(n)) => Ok(if m == n then 0 else if m < n then -1 else 1)
  }

  /** Integer division as BigInt does it: towards zero. */
  function TruncDiv(a: int, b: int): int
    requires b > 0
  {
    if a >= 0 then a / b else -(-a / b)
  }

  /** Change against a base in per cent, one digit; None when the base is not positive. */
  function PercentChangeFixed(value: string, base: string, digits: int): Result<Option<string>, Fault> {
    match DisplayScaled(base, digits)
    case Err(e) => Err(e)
    case Ok(b) =>
      if b <= 0 then Ok(None) else
      match DisplayScaled(value, digits)
      case Err(e) => Err(e)
      case Ok(v) => Ok(Some(PercentText(v - b, b)))
  }

  function PercentText(diff: int, b: int): string
    requires b > 0
  {
    Unscale(TwoStepTenths(diff, b), 1)
  }

  /** The two truncating divisions, in tenths of a per cent. */
  function TwoStepTenths(diff: int, b: int): int
    requires b > 0
  {
    var q := TruncDiv(diff * 2000, b);
    if q < 0 then TruncDiv(q - 1, 2) else TruncDiv(q + 1, 2)
  }

  lemma {:induction false} OnlyDigitsConcat(a: string, b: string)
    ensures OnlyDigits(a + b) == OnlyDigits(a) + OnlyDigits(b)
  {
    if a == [] {
      assert a + b == b;
    } else {
      assert (a + b)[1..] == a[1..] + b;
      OnlyDigitsConcat(a[1..], b);
    }
  }

  lemma {:induction false} OnlyDigitsKeeps(a: string)
    requires AllDigits(a)
    ensures OnlyDigits(a) == a
  {
    if a != [] {
      OnlyDigitsKeeps(a[1..]);
    }
  }

  lemma OnlyDigitsJoin(sign: string, i: string, f: string)
    requires sign in {"", "-"} && AllDigits(i) && AllDigits(f)
    ensures OnlyDigits(Join(sign, i, f)) == i + f
  {
    OnlyDigitsKeeps(i);
    OnlyDigitsKeeps(f);
    OnlyDigitsConcat(sign + i, if f == [] then [] else "." + f);
    OnlyDigitsConcat(sign, i);
    if sign == "-" {
      assert OnlyDigits("-") == OnlyDigits([]);
    }
    if f != [] {
      assert ("." + f)[1..] == f;
    }
  }

  lemma UnscaleIsShown(n: int, digits: nat)
    ensures Unscale(n, digits) == ShownSigned(n, digits)
  {
  }

  /** Lifting gives the half-up rounding of the value, in units of the last digit. */
  lemma DisplayScaledMeaning(value: string, digits: nat)
    requires IsDecimal(Trim(value))
    ensures DisplayScaled(value, digits) == Ok(Rounded(NumberOf(value), digits))
  {
    ScaledShown(Rounded(NumberOf(value), digits), digits);
  }

  lemma ScaledShown(n: int, digits: nat)
    ensures var s := ShownSigned(n, digits);
      n == if s != [] && s[0] == '-' then -(Value(OnlyDigits(s)) as int) else Value(OnlyDigits(s))
  {
    var u := if n < 0 then -n else n;
    var i, f := ShownParts(n < 0, u, digits);
    var sign := if n < 0 then "-" else "";
    OnlyDigitsJoin(sign, i, f);
    UnsignedJoin(sign, i, f);
  }

  /** Lifting undoes `Unscale`. */
  lemma ScaledOfUnscaled(n: int, digits: nat)
    ensures DisplayScaled(Unscale(n, digits), digits) == Ok(n)
  {
    UnscaleIsShown(n, digits);
    ReadShownSigned(n, digits);
    RoundedOfUnits(n, digits);
    DisplayScaledMeaning(Unscale(n, digits), digits);
  }

  /** A text in the fixed form with `digits` fraction digits. */
  ghost predicate IsFixed(t: string, digits: nat) {
    && IsDecimal(t) && t[0] != '+'
    && Canonical(Split(t).intPart) && |Split(t).fracPart| == digits
    && (Split(t).negative ==> exists k :: 0 <= k < |t| && '1' <= t[k] <= '9')
  }

  /** `Unscale` undoes lifting on the fixed form, and produces nothing else. */
  lemma UnscaledOfScaled(t: string, digits: nat)
    requires IsFixed(t, digits)
    ensures DisplayScaled(t, digits).Ok? && Unscale(DisplayScaled(t, digits).value, digits) == t
  {
    var n := FixedIsShown(t, digits);
    UnscaleIsShown(n, digits);
    ScaledOfUnscaled(n, digits);
  }

  /** Every text in the fixed form is the shown form of some number of units. */
  lemma FixedIsShown(t: string, digits: nat) returns (n: int)
    requires IsFixed(t, digits)
    ensures t == ShownSigned(n, digits)
  {
    hide ShownSigned, Shown, Join, Value, IsDecimal;
    var x := Split(t);
    FixedJoin(t, digits);
    ValueConcat(x.intPart, x.fracPart);
    var u := Value(x.intPart + x.fracPart);
    if x.negative {
      var k :| 0 <= k < |t| && '1' <= t[k] <= '9';
      NonZeroDigit(t, x, k);
    }
    ShownAssembled(x.negative, x.intPart, x.fracPart);
    n := if x.negative then -(u as int) else u;
    SignedUnits(x.negative, u, digits);
  }

  lemma FixedJoin(t: string, digits: nat)
    requires IsFixed(t, digits)
    ensures t == Join(if Split(t).negative then "-" else "", Split(t).intPart, Split(t).fracPart)
  {
    JoinSplit(t);
    var x := Split(t);
    var s :| s in {"", "+", "-"} && t == Join(s, x.intPart, x.fracPart);
    UnsignedJoin(s, x.intPart, x.fracPart);
  }

  lemma NonZeroDigit(t: string, x: Decimal, k: nat)
    requires WellFormed(x) && t == Join("-", x.intPart, x.fracPart)
    requires k < |t| && '1' <= t[k] <= '9'
    ensures AllDigits(x.intPart + x.fracPart) && Value(x.intPart + x.fracPart) != 0
  {
    var s := x.intPart + x.fracPart;
    var j := if k <= |x.intPart| then k - 1 else k - 2;
    assert 0 <= j < |s| && s[j] == t[k];
    DigitMakesPositive(s, j);
  }

  lemma {:induction false} DigitMakesPositive(s: string, j: nat)
    requires AllDigits(s) && j < |s| && s[j] != '0'
    ensures Value(s) > 0
  {
    if j < |s| - 1 {
      DigitMakesPositive(s[..|s| - 1], j);
    }
  }

  lemma FixedOfUnscaled(n: int, digits: nat)
    ensures IsFixed(Unscale(n, digits), digits)
  {
    UnscaleIsShown(n, digits);
    ReadShownSigned(n, digits);
    var i, f := ShownParts(n < 0, if n < 0 then -n else n, digits);
    UnsignedJoin(if n < 0 then "-" else "", i, f);
    if n < 0 {
      JoinHasDigit(i, f);
    }
  }

  lemma JoinHasDigit(i: string, f: string)
    requires AllDigits(i + f) && Value(i + f) > 0
    ensures exists k :: 0 <= k < |Join("-", i, f)| && '1' <= Join("-", i, f)[k] <= '9'
  {
    var j := PositiveHasDigit(i + f);
    var k := if j < |i| then j + 1 else j + 2;
    assert Join("-", i, f)[k] == (i + f)[j];
  }

  lemma {:induction false} PositiveHasDigit(s: string) returns (j: nat)
    requires AllDigits(s) && Value(s) > 0
    ensures j < |s| && '1' <= s[j] <= '9'
  {
    if s[|s| - 1] != '0' {
      j := |s| - 1;
    } else {
      j := PositiveHasDigit(s[..|s| - 1]);
    }
  }

  /** On the screen: what was subtracted and added back shows the same text. */
  lemma AddUndoesSubtract(a: string, b: string, digits: nat)
    requires IsDecimal(Trim(a)) && IsDecimal(Trim(b))
    ensures SubtractFixed(a, b, digits).Ok?
    ensures AddFixed(SubtractFixed(a, b, digits).value, b, digits) == Formatted(a, digits)
  {
    hide ShownSigned, Rounded, NumberOf, IsDecimal, DisplayScaled, Unscale;
    var m, n := Rounded(NumberOf(a), digits), Rounded(NumberOf(b), digits);
    DisplayScaledMeaning(a, digits);
    DisplayScaledMeaning(b, digits);
    ScaledOfUnscaled(m - n, digits);
    UnscaleIsShown(m, digits);
  }

  lemma SubtractUndoesAdd(a: string, b: string, digits: nat)
    requires IsDecimal(Trim(a)) && IsDecimal(Trim(b))
    ensures AddFixed(a, b, digits).Ok?
    ensures SubtractFixed(AddFixed(a, b, digits).value, b, digits) == Formatted(a, digits)
  {
    hide ShownSigned, Rounded, NumberOf, IsDecimal, DisplayScaled, Unscale;
    var m, n := Rounded(NumberOf(a), digits), Rounded(NumberOf(b), digits);
    DisplayScaledMeaning(a, digits);
    DisplayScaledMeaning(b, digits);
    ScaledOfUnscaled(m + n, digits);
    UnscaleIsShown(m, digits);
  }

  /** The three numbers on the screen add up: the shown difference is the difference of
      the two shown numbers, with no hidden digit involved. */
  lemma SubtractMatchesScreen(a: string, b: string, digits: nat)
    requires IsDecimal(Trim(a)) && IsDecimal(Trim(b))
    ensures SubtractFixed(a, b, digits).Ok? && IsDecimal(Trim(SubtractFixed(a, b, digits).value))
    ensures NumberOf(SubtractFixed(a, b, digits).value)
         == NumberOf(Formatted(a, digits).value) - NumberOf(Formatted(b, digits).value)
  {
    hide ShownSigned, Rounded, IsDecimal, Split, Number, Trim, DisplayScaled, Unscale, Pow10;
    var m, n := Rounded(NumberOf(a), digits), Rounded(NumberOf(b), digits);
    DisplayScaledMeaning(a, digits);
    DisplayScaledMeaning(b, digits);
    UnscaleIsShown(m - n, digits);
    ReadShownSigned(m, digits);
    ReadShownSigned(n, digits);
    ReadShownSigned(m - n, digits);
    DifferenceQuotient(m, n, Pow10(digits));
  }

  lemma DifferenceQuotient(m: int, n: int, p: nat)
    requires p > 0
    ensures (m - n) as real / p as real == m as real / p as real - n as real / p as real
  {
    var x, y, z := m as real / p as real, n as real / p as real, (m - n) as real / p as real;
    assert x * p as real == m as real && y * p as real == n as real && z * p as real == (m - n) as real;
    assert (x - y - z) * p as real == 0.0;
  }

  /** Comparison agrees with the screen: 0 exactly when the two shown texts are the same,
      otherwise the order of the two shown numbers. */
  lemma CompareMatchesScreen(a: string, b: string, digits: nat)
    requires IsDecimal(Trim(a)) && IsDecimal(Trim(b))
    ensures CompareFixed(a, b, digits).Ok?
    ensures CompareFixed(a, b, digits).value == 0 <==> Formatted(a, digits) == Formatted(b, digits)
    ensures CompareFixed(a, b, digits).value < 0
       <==> NumberOf(Formatted(a, digits).value) < NumberOf(Formatted(b, digits).value)
    ensures CompareFixed(a, b, digits).value > 0
       <==> NumberOf(Formatted(a, digits).value) > NumberOf(Formatted(b, digits).value)
  {
    hide ShownSigned, Rounded, IsDecimal, Split, Number, Trim, DisplayScaled, Unscale, Pow10;
    var m, n := Rounded(NumberOf(a), digits), Rounded(NumberOf(b), digits);
    DisplayScaledMeaning(a, digits);
    DisplayScaledMeaning(b, digits);
    ShownSignedInjective(m, n, digits);
    ReadShownSigned(m, digits);
    ReadShownSigned(n, digits);
    OrderQuotients(m, n, Pow10(digits));
    OrderQuotients(n, m, Pow10(digits));
  }

  /** Flooring twice is flooring once: (2x rounded down, plus 1, halved) is x rounded. */
  lemma TwoFloors(a: nat, b: nat)
    requires b > 0
    ensures var t := (2 * a / b + 1) / 2; 2 * (b * t) <= 2 * a + b < 2 * (b * t) + 2 * b
  {
    var q := 2 * a / b;
    var t := (q + 1) / 2;
    DivisionBand(2 * a, b);
    if q % 2 == 0 {
      assert q == 2 * t;
      assert b * q == 2 * (b * t);
    } else {
      assert q == 2 * t - 1;
      assert b * q == 2 * (b * t) - b;
    }
  }

  lemma DivisionBand(a: nat, b: nat)
    requires b > 0
    ensures b * (a / b) <= a < b * (a / b) + b
  {
    assert a == a / b * b + a % b;
  }

  /** Half-up rounding of the quotient a / b to a whole number is the only `t` in this band. */
  lemma RoundedBand(a: nat, b: nat, t: nat, digits: nat)
    requires b > 0 && 2 * (b * t) <= 2 * (a * Pow10(digits)) + b < 2 * (b * t) + 2 * b
    ensures a as real / b as real >= 0.0
    ensures HalfUp(a as real / b as real, digits) == t
  {
    BandReal(a, b, t, Pow10(digits));
  }

  lemma RealProduct(a: int, b: int)
    ensures (a * b) as real == a as real * b as real
  {
  }

  lemma ScaledQuotient(a: real, b: real, p: real)
    requires b > 0.0 && a >= 0.0
    ensures a / b >= 0.0
    ensures a / b * p * b == a * p
  {
    var x := a / b;
    assert x * b == a;
    assert x * p * b == (x * b) * p;
  }

  lemma BandReal(a: nat, b: nat, t: nat, p: nat)
    requires b > 0 && 2 * (b * t) <= 2 * (a * p) + b < 2 * (b * t) + 2 * b
    ensures a as real / b as real >= 0.0
    ensures (a as real / b as real * p as real + 0.5).Floor == t
  {
    RealProduct(b, t);
    RealProduct(a, p);
    ScaledQuotient(a as real, b as real, p as real);
    BandDivide(a as real / b as real * p as real, b as real, t as real, (a * p) as real, (b * t) as real);
  }

  lemma BandDivide(y: real, b: real, t: real, yb: real, bt: real)
    requires b > 0.0 && yb == y * b && bt == b * t && 2.0 * bt <= 2.0 * yb + b < 2.0 * bt + 2.0 * b
    ensures t <= y + 0.5 < t + 1.0
  {
    assert (y + 0.5) * b == y * b + 0.5 * b;
    assert (t + 1.0) * b == b * t + b;
    CompareProducts(y + 0.5, t, b);
    CompareProducts(y + 0.5, t + 1.0, b);
  }

  /** The two truncating divisions are one rounding of the exact percentage
      100 * diff / base to one digit, ties away from zero. */
  lemma PercentTextRoundsOnce(diff: int, b: int)
    requires b > 0
    ensures PercentText(diff, b) == ShownSigned(Rounded((100 * diff) as real / b as real, 1), 1)
  {
    TwoStepIsRounded(diff, b);
    UnscaleIsShown(TwoStepTenths(diff, b), 1);
  }

  lemma PercentChangeRoundsOnce(value: string, base: string, digits: nat, v: int, b: int)
    requires IsDecimal(Trim(value)) && IsDecimal(Trim(base))
    requires v == Rounded(NumberOf(value), digits) && b == Rounded(NumberOf(base), digits)
    ensures b <= 0 ==> PercentChangeFixed(value, base, digits) == Ok(None)
    ensures b > 0 ==>
      PercentChangeFixed(value, base, digits) == Ok(Some(ShownSigned(Rounded((100 * (v - b)) as real / b as real, 1), 1)))
  {
    hide Formatted, ShownSigned, Rounded, NumberOf, DisplayScaled, PercentText, IsDecimal;
    DisplayScaledMeaning(value, digits);
    DisplayScaledMeaning(base, digits);
    if b > 0 {
      PercentTextRoundsOnce(v - b, b);
    }
  }

  lemma TwoStepIsRounded(diff: int, b: nat)
    requires b > 0
    ensures TwoStepTenths(diff, b) == Rounded((100 * diff) as real / b as real, 1)
  {
    if diff >= 0 {
      TwoStepUp(diff, b);
    } else {
      hide HalfUp;
      TwoStepUp(-diff, b);
      NegativeTwoStep(-diff, b);
      NegatedQuotient(100 * -diff, b);
      NegativeQuotient(100 * diff, b);
    }
  }

  lemma TwoStepUp(a: nat, b: nat)
    requires b > 0
    ensures TwoStepTenths(a, b) == HalfUp((100 * a) as real / b as real, 1)
  {
    hide HalfUp;
    TwoFloors(1000 * a, b);
    assert Pow10(1) == 10;
    RoundedBand(100 * a, b, (2 * (1000 * a) / b + 1) / 2, 1);
  }

  lemma TruncIsOdd(a: int, b: int)
    requires a >= 0 && b > 0
    ensures TruncDiv(a, b) >= 0 && TruncDiv(-a, b) == -TruncDiv(a, b)
  {
    DivisionBand(a, b);
  }

  lemma NegativeTwoStep(a: int, b: int)
    requires a >= 0 && b > 0
    ensures TwoStepTenths(-a, b) == -TwoStepTenths(a, b)
  {
    TruncIsOdd(a * 2000, b);
    var q := TruncDiv(a * 2000, b);
    TruncIsOdd(q + 1, 2);
    assert TruncDiv(1, 2) == 0;
    hide TruncDiv;
    assert -a * 2000 == -(a * 2000);
  }
}
