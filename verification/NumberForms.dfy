/**
 Every text that an input field reads as a number: decimal literals with their exponents and
 the literals with a base, spelled out apart from the reader in module NumberInput.
 */
module NumberForms {
  import opened Prelude
  import opened Digits
  import opened DecimalText
  import opened NumberInput

  datatype Exponent = Exponent(letter: char, sign: string, digits: string)

  datatype Literal =
    | InDecimal(sign: string, intPart: string, point: bool, fracPart: string, exponent: Option<Exponent>)
    | InBase(letter: char, digits: string)

  /** The character stands for the number v. */
  predicate StandsFor(c: char, v: nat) {
    v < 16 && (c == "0123456789abcdef"[v] || c == "0123456789ABCDEF"[v])
  }

  function BaseOf(letter: char): nat {
    if letter in {'x', 'X'} then 16 else if letter in {'o', 'O'} then 8 else 2
  }

  ghost predicate DigitBelow(c: char, base: nat) {
    exists v: nat | v < base :: StandsFor(c, v)
  }

  ghost predicate DigitsBelow(digits: string, base: nat) {
    forall k | 0 <= k < |digits| :: DigitBelow(digits[k], base)
  }

  ghost predicate IsLiteral(l: Literal) {
    match l
    case InDecimal(sign, i, point, f, exponent) =>
      && sign in {"", "+", "-"} && AllDigits(i) && AllDigits(f) && (i != [] || f != []) && (!point ==> f == [])
      && (exponent.Some? ==>
            exponent.value.letter in {'e', 'E'} && exponent.value.sign in {"", "+", "-"}
            && exponent.value.digits != [] && AllDigits(exponent.value.digits))
    case InBase(letter, digits) =>
      letter in {'x', 'X', 'o', 'O', 'b', 'B'} && digits != [] && DigitsBelow(digits, BaseOf(letter))
  }

  function Mantissa(i: string, point: bool, f: string): string {
    i + (if point then "." + f else "")
  }

  function ExponentText(exponent: Option<Exponent>): string {
    match exponent case None => "" case Some(e) => [e.letter] + (e.sign + e.digits)
  }

  function LiteralText(l: Literal): string {
    match l
    case InDecimal(sign, i, point, f, exponent) => sign + (Mantissa(i, point, f) + ExponentText(exponent))
    case InBase(letter, digits) => "0" + [letter] + digits
  }

  function Power(base: nat, n: nat): nat {
    if n == 0 then 1 else base * Power(base, n - 1)
  }

  /** Each digit times the power of the base that belongs to its place. */
  ghost predicate Sums(base: nat, digits: string, n: nat)
    decreases |digits|
  {
    if digits == [] then n == 0 else
    exists v, rest | 0 <= v < base && 0 <= rest <= n && StandsFor(digits[0], v) && Sums(base, digits[1..], rest) ::
      n == v * Power(base, |digits| - 1) + rest
  }

  predicate IsWhole(x: real, n: nat) {
    x == n as real
  }

  /** The mantissa, times or divided by as many tens as the exponent says. */
  ghost predicate Means(l: Literal, x: real) {
    match l
    case InDecimal(sign, i, _, f, exponent) =>
      AllDigits(i + f) &&
      var m := Value(i + f) as real / Pow10(|f|) as real;
      var y := if exponent.None? then m
               else if !AllDigits(exponent.value.digits) then 0.0
               else if exponent.value.sign == "-" then m / Pow10(Value(exponent.value.digits)) as real
               else m * Pow10(Value(exponent.value.digits)) as real;
      x == if sign == "-" then -y else y
    case InBase(letter, digits) => exists n: nat | Sums(BaseOf(letter), digits, n) :: IsWhole(x, n)
  }

  // ---- Digits in a base ----

  lemma DigitStands(base: nat, c: char)
    requires base <= 16
    ensures DigitIn(base, c).Some? ==> DigitIn(base, c).value < base && StandsFor(c, DigitIn(base, c).value)
    ensures forall v: nat | v < base && StandsFor(c, v) :: DigitIn(base, c) == Some(v)
  {
    assert forall v: nat | v < 16 && StandsFor(c, v) :: v < 10 <==> IsDigit(c);
  }

  lemma Carry(base: nat, d: nat, power: nat, r: nat, last: nat)
    ensures base * (d * power + r) + last == d * (base * power) + (base * r + last)
  {
  }

  /** The first digit counts most. */
  function Leading(d: Option<nat>, power: nat, r: Option<nat>): Option<nat> {
    if d.Some? && r.Some? then Some(d.value * power + r.value) else None
  }

  function Trailing(base: nat, r: Option<nat>, d: Option<nat>): Option<nat> {
    if r.Some? && d.Some? then Some(base * r.value + d.value) else None
  }

  lemma RadixNext(base: nat, front: string, last: char)
    ensures RadixValue(base, front + [last]) == Trailing(base, RadixValue(base, front), DigitIn(base, last))
  {
    hide DigitIn;
    assert (front + [last])[..|front|] == front;
  }

  lemma CarryOver(base: nat, d: Option<nat>, power: nat, r: Option<nat>, last: Option<nat>)
    ensures Trailing(base, Leading(d, power, r), last) == Leading(d, base * power, Trailing(base, r, last))
  {
    if d.Some? && r.Some? && last.Some? {
      Carry(base, d.value, power, r.value, last.value);
    }
  }

  lemma {:induction false} RadixFromTheLeft(base: nat, c: char, rest: string)
    ensures RadixValue(base, [c] + rest) == Leading(DigitIn(base, c), Power(base, |rest|), RadixValue(base, rest))
  {
    if rest == [] {
      hide DigitIn;
      RadixNext(base, [], c);
      assert [] + [c] == [c] + rest;
    } else {
      var front, last := rest[..|rest| - 1], rest[|rest| - 1];
      assert Power(base, |rest|) == base * Power(base, |front|);
      hide *;
      assert front + [last] == rest && [c] + front + [last] == [c] + rest;
      RadixFromTheLeft(base, c, front);
      RadixNext(base, [c] + front, last);
      RadixNext(base, front, last);
      CarryOver(base, DigitIn(base, c), Power(base, |front|), RadixValue(base, front), DigitIn(base, last));
    }
  }

  lemma {:induction false} RadixReads(base: nat, digits: string, n: nat)
    requires base <= 16 && Sums(base, digits, n)
    ensures RadixValue(base, digits) == Some(n)
    decreases |digits|
  {
    hide RadixValue, DigitIn, StandsFor, Power;
    if digits == [] {
      EmptySum(base);
    } else {
      var v, rest :| 0 <= v < base && 0 <= rest <= n && StandsFor(digits[0], v) && Sums(base, digits[1..], rest)
                     && n == v * Power(base, |digits| - 1) + rest;
      hide Sums;
      RadixReads(base, digits[1..], rest);
      DigitStands(base, digits[0]);
      RadixFromTheLeft(base, digits[0], digits[1..]);
      assert digits == [digits[0]] + digits[1..];
    }
  }

  lemma {:induction false} RadixSums(base: nat, digits: string)
    requires base <= 16 && RadixValue(base, digits).Some?
    ensures Sums(base, digits, RadixValue(base, digits).value) && DigitsBelow(digits, base)
    decreases |digits|
  {
    hide RadixValue, DigitIn, StandsFor, Power, Sums, DigitBelow;
    if digits == [] {
      EmptySum(base);
    } else {
      var c, rest := digits[0], digits[1..];
      assert digits == [c] + rest;
      RadixFromTheLeft(base, c, rest);
      DigitStands(base, c);
      RadixSums(base, rest);
      SumsNext(base, c, rest, DigitIn(base, c).value, RadixValue(base, rest).value);
    }
  }

  lemma EmptySum(base: nat)
    ensures Sums(base, [], 0) && RadixValue(base, []) == Some(0)
  {
  }

  lemma SumsNext(base: nat, c: char, rest: string, v: nat, n: nat)
    requires v < base && StandsFor(c, v) && Sums(base, rest, n) && DigitsBelow(rest, base)
    ensures Sums(base, [c] + rest, v * Power(base, |rest|) + n) && DigitsBelow([c] + rest, base)
  {
    hide StandsFor, Power;
    var digits := [c] + rest;
    assert digits[0] == c && digits[1..] == rest;
    ProductIsNat(v, Power(base, |rest|));
    assert DigitBelow(c, base);
    hide DigitBelow;
    assert forall k | 0 < k < |digits| :: digits[k] == rest[k - 1];
    assert StandsFor(digits[0], v) && Sums(base, digits[1..], n);
  }

  lemma ProductIsNat(a: nat, b: nat)
    ensures a * b >= 0
  {
  }

  // ---- Decimal literals ----

  lemma {:induction false} MarkAfter(body: string, exponent: string)
    requires 'e' !in body && 'E' !in body && (exponent == [] || exponent[0] in {'e', 'E'})
    ensures ExponentMark(body + exponent) == |body|
  {
    if body == [] {
      assert body + exponent == exponent;
    } else {
      assert (body + exponent)[1..] == body[1..] + exponent;
      assert body[0] in body;
      MarkAfter(body[1..], exponent);
    }
  }

  lemma MantissaReads(i: string, point: bool, f: string)
    requires AllDigits(i) && AllDigits(f) && (i != [] || f != []) && (!point ==> f == [])
    ensures var m := Mantissa(i, point, f);
      && m != [] && (IsDigit(m[0]) || m[0] == '.') && 'e' !in m && 'E' !in m
      && AllDigits(i + f) && MantissaOf(m) == Some(Value(i + f) as real / Pow10(|f|) as real)
  {
    hide Value, Pow10, Dot;
    var tail := if point then "." + f else "";
    var m := Mantissa(i, point, f);
    DigitsHaveNoComma(i);
    DotAfter(i, tail);
    assert m == i + tail;
    assert m[..|i|] == i;
    assert point ==> m[|i| + 1..] == f;
    ValueConcat(i, f);
  }

  lemma ExponentReads(sign: string, digits: string)
    requires sign in {"", "+", "-"} && digits != [] && AllDigits(digits)
    ensures ExponentOf(sign + digits) == Some(if sign == "-" then -(Value(digits) as int) else Value(digits))
  {
    hide Value;
    var e := sign + digits;
    if sign != "" {
      assert e[0] == sign[0] && e[1..] == digits;
    } else {
      assert e == digits;
    }
  }

  /** The exponent as a number. */
  function ExponentNumber(exponent: Option<Exponent>): int
    requires exponent.Some? ==> AllDigits(exponent.value.digits)
  {
    if exponent.None? then 0
    else if exponent.value.sign == "-" then -(Value(exponent.value.digits) as int)
    else Value(exponent.value.digits)
  }

  lemma ScaledIs(m: real, n: nat)
    ensures Scaled(m, 0) == m
    ensures Scaled(m, n) == m * Pow10(n) as real
    ensures Scaled(m, -(n as int)) == m / Pow10(n) as real
  {
    var p := Pow10(n) as real;
    Reciprocal(m, p);
  }

  lemma Reciprocal(m: real, p: real)
    requires p > 0.0
    ensures m * (1.0 / p) == m / p
  {
  }

  lemma UnsignedReads(i: string, point: bool, f: string, exponent: Option<Exponent>)
    requires IsLiteral(InDecimal("", i, point, f, exponent))
    ensures AllDigits(i + f)
    ensures UnsignedDecimal(Mantissa(i, point, f) + ExponentText(exponent))
         == Some(Scaled(Value(i + f) as real / Pow10(|f|) as real, ExponentNumber(exponent)))
  {
    hide Value, Pow10, Scaled, MantissaOf, ExponentOf, ExponentMark, Mantissa;
    var m, e := Mantissa(i, point, f), ExponentText(exponent);
    var u := m + e;
    MantissaReads(i, point, f);
    MarkAfter(m, e);
    var k := ExponentMark(u);
    assert u[..k] == m;
    if exponent.Some? {
      var text := exponent.value.sign + exponent.value.digits;
      ExponentReads(exponent.value.sign, exponent.value.digits);
      assert k < |u| && u[k + 1..] == text;
      UnsignedParts(u, m, text);
    }
  }

  lemma UnsignedParts(u: string, m: string, e: string)
    requires var k := ExponentMark(u); k < |u| && u[..k] == m && u[k + 1..] == e
    requires MantissaOf(m).Some? && ExponentOf(e).Some?
    ensures UnsignedDecimal(u) == Some(Scaled(MantissaOf(m).value, ExponentOf(e).value))
  {
    hide MantissaOf, ExponentOf, Scaled;
  }

  /** The characters that decimal literals are made of. */
  predicate InLiteral(c: char) {
    IsDigit(c) || c in {'.', 'e', 'E', '+', '-'}
  }

  lemma LiteralCharacters(i: string, point: bool, f: string, exponent: Option<Exponent>)
    requires IsLiteral(InDecimal("", i, point, f, exponent))
    ensures var u := Mantissa(i, point, f) + ExponentText(exponent);
      u != [] && (IsDigit(u[0]) || u[0] == '.') && forall k | 0 <= k < |u| :: InLiteral(u[k])
  {
    assert forall k | 0 <= k < |ExponentText(exponent)| :: InLiteral(ExponentText(exponent)[k]);
    assert forall k | 0 <= k < |Mantissa(i, point, f)| :: InLiteral(Mantissa(i, point, f)[k]);
    MantissaReads(i, point, f);
  }

  lemma SignInFront(sign: string, u: string)
    requires sign in {"", "+", "-"} && u != [] && (IsDigit(u[0]) || u[0] == '.')
    requires forall k | 0 <= k < |u| :: InLiteral(u[k])
    ensures var t := sign + u;
      && Unsigned(t) == u && u != "Infinity" && t[..|t| - |u|] == sign
      && (|t| > 2 && t[0] == '0' ==> RadixOf(t[1]).None?)
  {
    var t := sign + u;
    if sign == "" {
      assert t == u;
      assert |u| > 1 ==> InLiteral(u[1]);
    } else {
      assert t[0] == sign[0] && t[1..] == u;
    }
  }

  /** The value of a decimal literal as the reader has it. */
  lemma MeansScaled(sign: string, i: string, point: bool, f: string, exponent: Option<Exponent>, x: real)
    requires IsLiteral(InDecimal(sign, i, point, f, exponent)) && AllDigits(i + f)
    ensures Means(InDecimal(sign, i, point, f, exponent), x) <==>
      x == var y := Scaled(Value(i + f) as real / Pow10(|f|) as real, ExponentNumber(exponent)); if sign == "-" then -y else y
  {
    hide Pow10, Value, Scaled;
    ScaledIs(Value(i + f) as real / Pow10(|f|) as real, if exponent.None? then 0 else Value(exponent.value.digits));
  }

  lemma DecimalReads(sign: string, i: string, point: bool, f: string, exponent: Option<Exponent>, x: real)
    requires IsLiteral(InDecimal(sign, i, point, f, exponent)) && Means(InDecimal(sign, i, point, f, exponent), x)
    ensures JsNumber(LiteralText(InDecimal(sign, i, point, f, exponent))) == Finite(x)
  {
    hide Means, Mantissa, ExponentText, Unsigned, UnsignedDecimal, RadixOf, RadixValue, ExponentNumber, Scaled, Value, InLiteral;
    var u := Mantissa(i, point, f) + ExponentText(exponent);
    LiteralCharacters(i, point, f, exponent);
    SignInFront(sign, u);
    UnsignedReads(i, point, f, exponent);
    MeansScaled(sign, i, point, f, exponent, x);
  }

  lemma BaseReads(letter: char, digits: string, x: real)
    requires IsLiteral(InBase(letter, digits)) && Means(InBase(letter, digits), x)
    ensures JsNumber(LiteralText(InBase(letter, digits))) == Finite(x)
  {
    hide RadixValue, Sums, DigitsBelow;
    var n: nat :| Sums(BaseOf(letter), digits, n) && IsWhole(x, n);
    RadixReads(BaseOf(letter), digits, n);
    BaseText(letter, digits);
  }

  lemma BaseText(letter: char, digits: string)
    requires letter in {'x', 'X', 'o', 'O', 'b', 'B'} && digits != []
    ensures JsNumber(LiteralText(InBase(letter, digits))) == match RadixValue(BaseOf(letter), digits)
      case Some(n) => Finite(n as real)
      case None => NotANumber
  {
    var t := LiteralText(InBase(letter, digits));
    assert t[2..] == digits && t[0] == '0' && t[1] == letter;
    hide RadixValue, UnsignedDecimal;
  }

  // ---- Nothing else is a number ----

  lemma FirstAndRest(u: string, k: nat)
    requires k < |u|
    ensures u[k..] == [u[k]] + u[k + 1..]
  {
  }

  lemma MantissaShape(m: string)
    requires MantissaOf(m).Some?
    ensures var k := Dot(m);
      && AllDigits(m[..k]) && (k < |m| ==> m[k] == '.' && AllDigits(m[k + 1..])) && (k > 0 || k + 1 < |m|)
  {
    hide Value, Pow10;
  }

  lemma MantissaIs(i: string, point: bool, f: string)
    ensures Mantissa(i, point, f) == i + (if point then ['.'] + f else [])
  {
  }

  lemma MantissaOfParts(m: string) returns (i: string, point: bool, f: string)
    requires MantissaOf(m).Some?
    ensures AllDigits(i) && AllDigits(f) && (i != [] || f != []) && (!point ==> f == []) && Mantissa(i, point, f) == m
  {
    var k := Dot(m);
    MantissaShape(m);
    hide Dot, MantissaOf, Mantissa;
    i, point, f := m[..k], k < |m|, if k < |m| then m[k + 1..] else [];
    MantissaIs(i, point, f);
    assert m == m[..k] + m[k..];
    if point {
      FirstAndRest(m, k);
    }
  }

  lemma MarkStands(u: string)
    ensures ExponentMark(u) < |u| ==> u[ExponentMark(u)] in {'e', 'E'}
  {
    MarkIsMark(u);
  }

  lemma ExponentOfParts(u: string) returns (exponent: Option<Exponent>)
    requires UnsignedDecimal(u).Some?
    ensures ExponentText(exponent) == u[ExponentMark(u)..]
    ensures exponent.Some? ==> exponent.value.letter in {'e', 'E'} && exponent.value.sign in {"", "+", "-"}
                               && exponent.value.digits != [] && AllDigits(exponent.value.digits)
  {
    var k := ExponentMark(u);
    ExponentShape(u);
    hide *;
    if k == |u| {
      exponent := None;
      NoExponentText();
      assert u[k..] == [];
    } else {
      FirstAndRest(u, k);
      exponent := ExponentWritten(u[k], u[k + 1..]);
    }
  }

  lemma ExponentWritten(letter: char, e: string) returns (exponent: Option<Exponent>)
    requires letter in {'e', 'E'} && Unsigned(e) != [] && AllDigits(Unsigned(e))
    ensures exponent.Some? && ExponentText(exponent) == [letter] + e
    ensures exponent.value.letter in {'e', 'E'} && exponent.value.sign in {"", "+", "-"}
            && exponent.value.digits != [] && AllDigits(exponent.value.digits)
  {
    hide *;
    SignPiece(e);
    exponent := Some(Exponent(letter, e[..|e| - |Unsigned(e)|], Unsigned(e)));
    ExponentTextIs(exponent.value);
  }

  lemma ExponentShape(u: string)
    requires UnsignedDecimal(u).Some?
    ensures var k := ExponentMark(u);
      k < |u| ==> u[k] in {'e', 'E'} && Unsigned(u[k + 1..]) != [] && AllDigits(Unsigned(u[k + 1..]))
  {
    MarkStands(u);
    hide MantissaOf, Value, Scaled, ExponentMark, Unsigned;
  }

  lemma NoExponentText()
    ensures ExponentText(None) == []
  {
  }

  lemma ExponentTextIs(e: Exponent)
    ensures ExponentText(Some(e)) == [e.letter] + (e.sign + e.digits)
  {
  }

  lemma UnsignedSplits(u: string)
    requires UnsignedDecimal(u).Some?
    ensures MantissaOf(u[..ExponentMark(u)]).Some?
  {
    hide MantissaOf, ExponentOf, Scaled;
  }

  lemma DecimalOf(t: string) returns (l: Literal)
    requires UnsignedDecimal(Unsigned(t)).Some?
    ensures IsLiteral(l) && LiteralText(l) == t && l.InDecimal?
  {
    var u := Unsigned(t);
    hide *;
    UnsignedSplits(u);
    SignPiece(t);
    l := Glued(t, t[..|t| - |u|], u, ExponentMark(u));
  }

  lemma Glued(t: string, sign: string, u: string, k: nat) returns (l: Literal)
    requires UnsignedDecimal(u).Some? && k == ExponentMark(u) && MantissaOf(u[..k]).Some?
    requires t == sign + u && sign in {"", "+", "-"}
    ensures IsLiteral(l) && LiteralText(l) == t && l.InDecimal?
  {
    hide *;
    var exponent := ExponentOfParts(u);
    var i, point, f := MantissaOfParts(u[..k]);
    l := Built(sign, i, point, f, exponent);
    assert u == u[..k] + u[k..];
  }

  lemma Built(sign: string, i: string, point: bool, f: string, exponent: Option<Exponent>) returns (l: Literal)
    requires sign in {"", "+", "-"} && AllDigits(i) && AllDigits(f) && (i != [] || f != []) && (!point ==> f == [])
    requires exponent.Some? ==> exponent.value.letter in {'e', 'E'} && exponent.value.sign in {"", "+", "-"}
                                && exponent.value.digits != [] && AllDigits(exponent.value.digits)
    ensures IsLiteral(l) && l.InDecimal? && LiteralText(l) == sign + (Mantissa(i, point, f) + ExponentText(exponent))
  {
    hide AllDigits, Mantissa, ExponentText;
    l := InDecimal(sign, i, point, f, exponent);
  }

  /** A text that is read as a number is a literal. */
  lemma LiteralOf(t: string) returns (l: Literal)
    requires JsNumber(t).Finite?
    ensures IsLiteral(l) && LiteralText(l) == t && Means(l, JsNumber(t).x)
  {
    hide RadixValue, UnsignedDecimal, Unsigned, Sums, DigitsBelow;
    if |t| > 2 && t[0] == '0' && RadixOf(t[1]).Some? {
      l := InBase(t[1], t[2..]);
      RadixSums(RadixOf(t[1]).value, t[2..]);
      assert t == "0" + [t[1]] + t[2..];
    } else {
      l := DecimalOf(t);
      hide *;
      DecimalMeans(t, l);
    }
  }

  lemma DecimalMeans(t: string, l: Literal)
    requires IsLiteral(l) && l.InDecimal? && LiteralText(l) == t && JsNumber(t).Finite?
    ensures Means(l, JsNumber(t).x)
  {
    hide Mantissa, ExponentText, Scaled, Value;
    var y := Scaled(Value(l.intPart + l.fracPart) as real / Pow10(|l.fracPart|) as real, ExponentNumber(l.exponent));
    var x := if l.sign == "-" then -y else y;
    MeansScaled(l.sign, l.intPart, l.point, l.fracPart, l.exponent, x);
    DecimalReads(l.sign, l.intPart, l.point, l.fracPart, l.exponent, x);
  }

  /** The text is a literal for the number. */
  ghost predicate Spells(t: string, x: real) {
    exists l | IsLiteral(l) && LiteralText(l) == t :: Means(l, x)
  }

  lemma NumberExactly(t: string, x: real)
    ensures JsNumber(t) == Finite(x) <==> Spells(t, x)
  {
    hide JsNumber, IsLiteral, LiteralText, Means;
    if JsNumber(t) == Finite(x) {
      var l := LiteralOf(t);
    }
    if Spells(t, x) {
      var l :| IsLiteral(l) && LiteralText(l) == t && Means(l, x);
      match l
      case InDecimal(sign, i, point, f, exponent) => DecimalReads(sign, i, point, f, exponent, x);
      case InBase(letter, digits) => BaseReads(letter, digits, x);
    }
  }

  /** An input field without commas is read as a number exactly when what stands in it, in
      ASCII and without the blanks around it, is a literal for that number; anything but
      blanks that is no literal is unreadable. */
  lemma ReadsExactly(raw: string, x: real)
    requires ',' !in Trim(Narrow(raw))
    ensures ReadNumberInput(raw) == Entered(x) <==> Spells(Trim(Narrow(raw)), x)
    ensures ReadNumberInput(raw) == Unreadable <==>
              Trim(Narrow(raw)) != [] && forall y :: !Spells(Trim(Narrow(raw)), y)
  {
    hide Narrow, Trim, JsNumber, IsGrouped, Spells;
    var text := Trim(Narrow(raw));
    forall y
      ensures JsNumber(text) == Finite(y) <==> Spells(text, y)
    {
      NumberExactly(text, y);
    }
    if IsGrouped(text) {
      var sign, i, point, f := GroupedPieces(text);
      PrintedIsGrouped(text, sign, i, point, f);
    }
    EmptySpellsNothing();
  }

  lemma EmptySpellsNothing()
    ensures forall x :: !Spells([], x)
  {
    forall l | IsLiteral(l)
      ensures LiteralText(l) != []
    {
      if l.InDecimal? {
        MantissaReads(l.intPart, l.point, l.fracPart);
      }
    }
  }
}
