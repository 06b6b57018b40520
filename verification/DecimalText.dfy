/**
 Decimal texts as the display layer reads and prints them: an optional sign, an
 integer part, an optional fraction.

 `Formatted` says arithmetically what a value looks like with a fixed number of
 fraction digits. The character-level algorithm that the program runs is in
 module Format and is proved equal to it.
 */
module DecimalText {
  import opened Prelude
  import opened Digits

  /** A decimal text taken apart; a plus sign and no sign are the same. */
  datatype Decimal = Decimal(negative: bool, intPart: string, fracPart: string)

  ghost predicate WellFormed(x: Decimal) {
    AllDigits(x.intPart) && x.intPart != [] && AllDigits(x.fracPart)
  }

  /** What the formatters throw. */
  datatype Fault = RangeError | TypeError

  /** White space and line terminators, as `String.prototype.trim` removes them. */
  predicate IsSpace(c: char) {
    || '\U{0009}' <= c <= '\U{000D}' || c == ' ' || c == '\U{00A0}' || c == '\U{1680}'
    || '\U{2000}' <= c <= '\U{200A}' || c == '\U{2028}' || c == '\U{2029}' || c == '\U{202F}'
    || c == '\U{205F}' || c == '\U{3000}' || c == '\U{FEFF}'
  }

  function TrimStart(s: string): string {
    if s != [] && IsSpace(s[0]) then TrimStart(s[1..]) else s
  }

  function TrimEnd(s: string): string {
    if s != [] && IsSpace(s[|s| - 1]) then TrimEnd(s[..|s| - 1]) else s
  }

  function Trim(s: string): string {
    TrimEnd(TrimStart(s))
  }

  /** Space characters and line ends, by their code points. */
  predicate Blank(c: char) {
    var code := c as int;
    || code in {9, 10, 11, 12, 13, 32, 0xA0, 0x1680, 0x2028, 0x2029, 0x202F, 0x205F, 0x3000, 0xFEFF}
    || 0x2000 <= code <= 0x200A
  }

  predicate AllBlank(s: string) {
    forall k | 0 <= k < |s| :: Blank(s[k])
  }

  lemma {:induction false} TrimFront(before: string, t: string)
    requires forall k | 0 <= k < |before| :: IsSpace(before[k])
    requires t == [] || !IsSpace(t[0])
    ensures TrimStart(before + t) == t
  {
    if before == [] {
      assert before + t == t;
    } else {
      TrimFront(before[1..], t);
      assert (before + t)[1..] == before[1..] + t;
    }
  }

  lemma {:induction false} TrimBack(t: string, after: string)
    requires forall k | 0 <= k < |after| :: IsSpace(after[k])
    requires t == [] || !IsSpace(t[|t| - 1])
    ensures TrimEnd(t + after) == t
  {
    if after == [] {
      assert t + after == t;
    } else {
      TrimBack(t, after[..|after| - 1]);
      assert (t + after)[..|t + after| - 1] == t + after[..|after| - 1];
    }
  }

  /** Blanks around a text are cut off, whatever it is. */
  lemma TrimsBlanks(before: string, t: string, after: string)
    requires AllBlank(before) && AllBlank(after) && t != [] && !Blank(t[0]) && !Blank(t[|t| - 1])
    ensures Trim(before + (t + after)) == t
  {
    hide TrimStart, TrimEnd;
    assert (t + after)[0] == t[0];
    TrimFront(before, t + after);
    TrimBack(t, after);
  }

  function Unsigned(t: string): string {
    if t != [] && (t[0] == '+' || t[0] == '-') then t[1..] else t
  }

  /** Where the first '.' stands, or the length when there is none. */
  function Dot(u: string): (k: nat)
    ensures k <= |u|
    ensures '.' !in u[..k]
    ensures k < |u| ==> u[k] == '.'
  {
    if u == [] || u[0] == '.' then 0 else
      assert u[..1 + Dot(u[1..])] == [u[0]] + u[1..][..Dot(u[1..])];
      1 + Dot(u[1..])
  }

  /** The grammar test `[+-]?\d+(\.\d+)?` on the whole text. */
  predicate IsDecimal(t: string) {
    var u := Unsigned(t);
    var k := Dot(u);
    k > 0 && AllDigits(u[..k]) && (k < |u| ==> k + 1 < |u| && AllDigits(u[k + 1..]))
  }

  /** Sign, integer part and fraction of a text that passed the grammar test. */
  function Split(t: string): (x: Decimal)
    requires IsDecimal(t)
    ensures WellFormed(x)
  {
    var u := Unsigned(t);
    var k := Dot(u);
    Decimal(t[0] == '-', u[..k], if k < |u| then u[k + 1..] else [])
  }

  function Join(sign: string, intPart: string, fracPart: string): string {
    sign + intPart + (if fracPart == [] then [] else "." + fracPart)
  }

  /** The grammar accepts exactly the texts glued from a sign, digits and a fraction,
      and `Split` finds the pieces again. */
  lemma SplitJoin(sign: string, intPart: string, fracPart: string)
    requires sign in {"", "+", "-"}
    requires AllDigits(intPart) && intPart != [] && AllDigits(fracPart)
    ensures IsDecimal(Join(sign, intPart, fracPart))
    ensures Split(Join(sign, intPart, fracPart)) == Decimal(sign == "-", intPart, fracPart)
  {
    hide Unsigned;
    var u := Join("", intPart, fracPart);
    UnsignedJoin(sign, intPart, fracPart);
    DotAfterDigits(intPart, fracPart);
    assert u == intPart + (if fracPart == [] then [] else "." + fracPart);
    assert u[..|intPart|] == intPart;
    if fracPart != [] {
      assert u[|intPart| + 1..] == fracPart;
    }
  }

  lemma UnsignedJoin(sign: string, intPart: string, fracPart: string)
    requires sign in {"", "+", "-"} && AllDigits(intPart) && intPart != []
    ensures Unsigned(Join(sign, intPart, fracPart)) == Join("", intPart, fracPart)
    ensures Join(sign, intPart, fracPart)[0] == '-' <==> sign == "-"
    ensures Join(sign, intPart, fracPart)[0] == '+' <==> sign == "+"
  {
    var t, u := Join(sign, intPart, fracPart), Join("", intPart, fracPart);
    assert u[0] == intPart[0];
    assert t == sign + u;
    if sign != "" {
      assert t[1..] == u && t[0] == sign[0];
    }
  }

  lemma {:induction false} DotAfterDigits(intPart: string, fracPart: string)
    requires AllDigits(intPart)
    ensures Dot(intPart + (if fracPart == [] then [] else "." + fracPart)) == |intPart|
  {
    var tail := if fracPart == [] then [] else "." + fracPart;
    if intPart != [] {
      assert (intPart + tail)[1..] == intPart[1..] + tail;
      DotAfterDigits(intPart[1..], fracPart);
    } else {
      assert intPart + tail == tail;
    }
  }

  lemma JoinSplit(t: string)
    requires IsDecimal(t)
    ensures exists sign | sign in {"", "+", "-"} :: t == Join(sign, Split(t).intPart, Split(t).fracPart)
  {
    var u, x := Unsigned(t), Split(t);
    var k := Dot(u);
    assert u == x.intPart + (if x.fracPart == [] then [] else "." + x.fracPart);
    if t[0] == '+' || t[0] == '-' {
      assert t == [t[0]] + u;
      assert t == Join([t[0]], x.intPart, x.fracPart);
    } else {
      assert t == Join("", x.intPart, x.fracPart);
    }
  }

  /** The number a decimal text denotes, without its sign. */
  function Magnitude(x: Decimal): (m: real)
    requires WellFormed(x)
    ensures m >= 0.0
  {
    ValueConcat(x.intPart, x.fracPart);
    Value(x.intPart + x.fracPart) as real / Pow10(|x.fracPart|) as real
  }

  function Number(x: Decimal): real
    requires WellFormed(x)
  {
    if x.negative then -Magnitude(x) else Magnitude(x)
  }

  /** Half-up rounding of a magnitude, counted in units of the last shown digit. */
  function HalfUp(m: real, digits: nat): nat
    requires m >= 0.0
  {
    assert m * Pow10(digits) as real >= 0.0;
    (m * Pow10(digits) as real + 0.5).Floor
  }

  /** Half-up rounding of a number: a tie moves away from zero on either side. */
  function Rounded(x: real, digits: nat): int {
    if x < 0.0 then -(HalfUp(-x, digits) as int) else HalfUp(x, digits)
  }

  /** `units` units of 10^-digits as text: canonical integer part, exactly `digits`
      fraction digits, and a minus sign only in front of a number that is not zero. */
  function Shown(negative: bool, units: nat, digits: nat): string {
    var s := Wide(units, digits + 1);
    var body := if digits == 0 then s else s[..|s| - digits] + "." + s[|s| - digits..];
    if negative && units != 0 then "-" + body else body
  }

  /** `Shown` is what any assembly of a canonical integer part and a fraction reads. */
  lemma {:induction false} ShownAssembled(negative: bool, i: string, f: string)
    requires Canonical(i) && AllDigits(f)
    ensures AllDigits(i + f)
    ensures Shown(negative, Value(i + f), |f|)
         == Join(if negative && Value(i + f) != 0 then "-" else "", i, f)
  {
    WideOfValue(i, f);
    var sign := if negative && Value(i + f) != 0 then "-" else "";
    assert (i + f)[..|i|] == i && (i + f)[|i|..] == f;
    if f == [] {
      assert i + f == i;
    }
    assert sign + (i + "." + f) == sign + i + ("." + f);
  }

  /** Reading a displayed text gives back its sign and its number, and shows its form. */
  lemma ReadShown(negative: bool, units: nat, digits: nat)
    ensures IsDecimal(Shown(negative, units, digits))
    ensures Trim(Shown(negative, units, digits)) == Shown(negative, units, digits)
    ensures var x := Split(Shown(negative, units, digits));
      && x.negative == (negative && units != 0)
      && Canonical(x.intPart) && |x.fracPart| == digits
      && AllDigits(x.intPart + x.fracPart) && Value(x.intPart + x.fracPart) == units
      && Magnitude(x) == units as real / Pow10(digits) as real
  {
    var i, f := ShownParts(negative, units, digits);
    var sign := if negative && units != 0 then "-" else "";
    SplitJoin(sign, i, f);
    TrimJoin(sign, i, f);
  }

  lemma ShownParts(negative: bool, units: nat, digits: nat) returns (i: string, f: string)
    ensures Canonical(i) && AllDigits(f) && |f| == digits
    ensures AllDigits(i + f) && Value(i + f) == units
    ensures Shown(negative, units, digits) == Join(if negative && units != 0 then "-" else "", i, f)
  {
    var w := Wide(units, digits + 1);
    i, f := w[..|w| - digits], w[|w| - digits..];
    assert i + f == w;
    WideValue(units, digits + 1);
    WidePrefixCanonical(units, digits);
    ShownAssembled(negative, i, f);
  }

  lemma WidePrefixCanonical(units: nat, digits: nat)
    ensures var w := Wide(units, digits + 1); Canonical(w[..|w| - digits])
  {
  }

  lemma TrimJoin(sign: string, intPart: string, fracPart: string)
    requires sign in {"", "+", "-"}
    requires AllDigits(intPart) && intPart != [] && AllDigits(fracPart)
    ensures Trim(Join(sign, intPart, fracPart)) == Join(sign, intPart, fracPart)
  {
    var t := Join(sign, intPart, fracPart);
    assert t[0] == if sign == "" then intPart[0] else sign[0];
    assert t[|t| - 1] == if fracPart == [] then intPart[|intPart| - 1] else fracPart[|fracPart| - 1];
  }

  /** A signed number of units as text; zero has no sign. */
  function ShownSigned(n: int, digits: nat): (s: string)
    ensures IsDecimal(s) && Trim(s) == s
  {
    ReadShown(n < 0, if n < 0 then -n else n, digits);
    Shown(n < 0, if n < 0 then -n else n, digits)
  }

  lemma SignedUnits(negative: bool, u: nat, digits: nat)
    ensures ShownSigned(if negative then -(u as int) else u, digits) == Shown(negative, u, digits)
  {
    if u > 0 {
    } else {
      assert Shown(true, 0, digits) == Shown(false, 0, digits);
    }
  }

  lemma ReadShownSigned(n: int, digits: nat)
    ensures Number(Split(ShownSigned(n, digits))) == n as real / Pow10(digits) as real
    ensures Canonical(Split(ShownSigned(n, digits)).intPart)
    ensures |Split(ShownSigned(n, digits)).fracPart| == digits
    ensures Split(ShownSigned(n, digits)).negative <==> n < 0
  {
    var u := if n < 0 then -n else n;
    ReadShown(n < 0, u, digits);
    var x := Split(Shown(n < 0, u, digits));
    NegatedQuotient(u, Pow10(digits));
    assert Number(x) == if n < 0 then -Magnitude(x) else Magnitude(x);
  }

  lemma NegatedQuotient(u: int, p: nat)
    requires p > 0
    ensures -(u as real / p as real) == (-u) as real / p as real
  {
    var x, y := u as real / p as real, (-u) as real / p as real;
    assert x * p as real == u as real && y * p as real == (-u) as real;
    assert (x + y) * p as real == 0.0;
  }

  /** The number a text denotes. */
  function NumberOf(value: string): real
    requires IsDecimal(Trim(value))
  {
    Number(Split(Trim(value)))
  }

  /** A value displayed with a fixed number of fraction digits. */
  function Formatted(value: string, digits: int): (r: Result<string, Fault>)
    ensures r.Ok? <==> digits >= 0 && IsDecimal(Trim(value))
    ensures r.Err? ==> r.error == if digits < 0 then RangeError else TypeError
    ensures r.Ok? ==> IsDecimal(r.value) && Trim(r.value) == r.value
  {
    if digits < 0 then Err(RangeError)
    else if !IsDecimal(Trim(value)) then Err(TypeError)
    else Ok(ShownSigned(Rounded(NumberOf(value), digits), digits))
  }

  /** Rounding a number that already has `digits` fraction digits changes nothing. */
  lemma HalfUpOfUnits(units: nat, digits: nat)
    ensures HalfUp(units as real / Pow10(digits) as real, digits) == units
  {
    assert units as real / Pow10(digits) as real * Pow10(digits) as real == units as real;
  }

  /** Half-up: the shown number is within half a unit, and an exact tie goes up. */
  lemma HalfUpNearest(m: real, digits: nat)
    requires m >= 0.0
    ensures var u := HalfUp(m, digits) as real / Pow10(digits) as real;
      var half := 0.5 / Pow10(digits) as real;
      m - half < u <= m + half
  {
    var p := Pow10(digits) as real;
    var u := HalfUp(m, digits) as real;
    assert m * p - 0.5 < u <= m * p + 0.5;
    DivideThrough(m, u, p);
  }

  lemma DivideThrough(m: real, u: real, p: real)
    requires p > 0.0 && m * p - 0.5 < u <= m * p + 0.5
    ensures m - 0.5 / p < u / p <= m + 0.5 / p
  {
    var h, v := 0.5 / p, u / p;
    assert h * p == 0.5 && v * p == u;
    assert (m - h) * p < v * p <= (m + h) * p;
  }

  lemma RoundedOfUnits(n: int, digits: nat)
    ensures Rounded(n as real / Pow10(digits) as real, digits) == n
  {
    if n < 0 {
      NegatedQuotient(n, Pow10(digits));
      HalfUpOfUnits(-n, digits);
      NegativeQuotient(n, Pow10(digits));
    } else {
      HalfUpOfUnits(n, digits);
      assert n as real / Pow10(digits) as real >= 0.0;
    }
  }

  lemma NegativeQuotient(n: int, p: nat)
    requires n < 0 && p > 0
    ensures n as real / p as real < 0.0
  {
    var q := n as real / p as real;
    assert q * p as real == n as real;
  }

  /** Displaying is idempotent: a displayed text displays as itself. */
  lemma FormattedIdempotent(value: string, digits: nat)
    requires IsDecimal(Trim(value))
    ensures Formatted(Formatted(value, digits).value, digits) == Formatted(value, digits)
  {
    var n := Rounded(NumberOf(value), digits);
    ReadShownSigned(n, digits);
    RoundedOfUnits(n, digits);
  }

  lemma HalfUpMonotone(a: real, b: real, digits: nat)
    requires 0.0 <= a <= b
    ensures HalfUp(a, digits) <= HalfUp(b, digits)
  {
    assert a * Pow10(digits) as real <= b * Pow10(digits) as real;
  }

  lemma RoundedMonotone(a: real, b: real, digits: nat)
    requires a <= b
    ensures Rounded(a, digits) <= Rounded(b, digits)
  {
    if a < 0.0 && b < 0.0 {
      HalfUpMonotone(-b, -a, digits);
    } else if a >= 0.0 {
      HalfUpMonotone(a, b, digits);
    }
  }

  /** Displaying keeps order: a smaller number never displays as a larger one. */
  lemma FormattedMonotone(a: string, b: string, digits: nat)
    requires IsDecimal(Trim(a)) && IsDecimal(Trim(b)) && NumberOf(a) <= NumberOf(b)
    ensures NumberOf(Formatted(a, digits).value) <= NumberOf(Formatted(b, digits).value)
  {
    var m, n := Rounded(NumberOf(a), digits), Rounded(NumberOf(b), digits);
    RoundedMonotone(NumberOf(a), NumberOf(b), digits);
    ReadShownSigned(m, digits);
    ReadShownSigned(n, digits);
    OrderQuotients(m, n, Pow10(digits));
  }

  lemma CompareProducts(x: real, y: real, q: real)
    requires q > 0.0
    ensures x >= y <==> x * q >= y * q
  {
    assert (x - y) * q == x * q - y * q;
  }

  lemma OrderQuotients(m: int, n: int, p: nat)
    requires p > 0
    ensures m <= n ==> m as real / p as real <= n as real / p as real
    ensures m < n ==> m as real / p as real < n as real / p as real
  {
    var x, y := m as real / p as real, n as real / p as real;
    assert x * p as real == m as real && y * p as real == n as real;
  }

  /** What a displayed text is: exactly `digits` fraction digits, a canonical integer
      part, a minus sign only for a negative number, and the half-up rounding of the
      value (ties away from zero). */
  lemma FormattedMeaning(value: string, digits: nat)
    requires IsDecimal(Trim(value))
    ensures var x := Split(Formatted(value, digits).value);
      && Canonical(x.intPart) && |x.fracPart| == digits
      && (x.negative ==> Number(x) < 0.0)
      && Number(x) == Rounded(NumberOf(value), digits) as real / Pow10(digits) as real
  {
    var n := Rounded(NumberOf(value), digits);
    ReadShownSigned(n, digits);
    if n < 0 {
      NegativeQuotient(n, Pow10(digits));
    }
  }

  /** Two displayed texts are the same text exactly when they show the same number. */
  lemma ShownSignedInjective(m: int, n: int, digits: nat)
    ensures ShownSigned(m, digits) == ShownSigned(n, digits) <==> m == n
  {
    ReadShownSigned(m, digits);
    ReadShownSigned(n, digits);
    OrderQuotients(m, n, Pow10(digits));
    OrderQuotients(n, m, Pow10(digits));
  }
}
