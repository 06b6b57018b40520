/**
 Decimal digit strings and the natural numbers they denote.

 The display layer of the program works on digit strings so that no binary
 floating point is involved. Everything it prints is judged here by `Value`.
 */
module Digits {

  predicate IsDigit(c: char) {
    '0' <= c <= '9'
  }

  predicate AllDigits(s: string) {
    forall i :: 0 <= i < |s| ==> IsDigit(s[i])
  }

  function DigitValue(c: char): (v: nat)
    requires IsDigit(c)
    ensures v <= 9
  {
    (c - '0') as int
  }

  function DigitChar(v: nat): (c: char)
    requires v <= 9
    ensures IsDigit(c) && DigitValue(c) == v
  {
    '0' + v as char
  }

  /** The number a digit string denotes; the empty string denotes 0. */
  function Value(s: string): nat
    requires AllDigits(s)
  {
    if s == [] then 0 else 10 * Value(s[..|s| - 1]) + DigitValue(s[|s| - 1])
  }

  function Pow10(n: nat): (p: nat)
    ensures p >= 1
  {
    if n == 0 then 1 else 10 * Pow10(n - 1)
  }

  /** Digits without a superfluous leading zero. */
  predicate Canonical(s: string) {
    AllDigits(s) && s != [] && (s[0] == '0' ==> |s| == 1)
  }

  /** The canonical numeral of `n`. */
  function Numeral(n: nat): (s: string)
    ensures Canonical(s)
  {
    if n < 10 then [DigitChar(n)] else Numeral(n / 10) + [DigitChar(n % 10)]
  }

  function Zeros(n: nat): (s: string)
    ensures AllDigits(s) && |s| == n
  {
    seq(n, i => '0')
  }

  lemma {:induction false} Pow10Sum(a: nat, b: nat)
    ensures Pow10(a + b) == Pow10(a) * Pow10(b)
  {
    if a == 0 {
    } else {
      Pow10Sum(a - 1, b);
      assert 10 * Pow10(a - 1) * Pow10(b) == 10 * (Pow10(a - 1) * Pow10(b));
    }
  }

  lemma Distribute(x: int, p: int, y: int, v: int)
    ensures 10 * (x * p + y) + v == x * (10 * p) + (10 * y + v)
  {
    assert 10 * (x * p) == x * (10 * p);
  }

  /** Appending digits shifts the number to the left of them. */
  lemma {:induction false} ValueConcat(a: string, b: string)
    requires AllDigits(a) && AllDigits(b)
    ensures AllDigits(a + b)
    ensures Value(a + b) == Value(a) * Pow10(|b|) + Value(b)
  {
    assert forall i :: 0 <= i < |a + b| ==> IsDigit((a + b)[i]);
    if b == [] {
      assert a + b == a;
    } else {
      var b', v, p := b[..|b| - 1], DigitValue(b[|b| - 1]), Pow10(|b| - 1);
      assert (a + b)[..|a + b| - 1] == a + b';
      ValueConcat(a, b');
      assert Value(a + b) == 10 * Value(a + b') + v;
      Distribute(Value(a), p, Value(b'), v);
    }
  }

  lemma {:induction false} ValueBound(s: string)
    requires AllDigits(s)
    ensures Value(s) < Pow10(|s|)
  {
    if s != [] {
      ValueBound(s[..|s| - 1]);
    }
  }

  lemma {:induction false} ValueZeros(n: nat)
    ensures Value(Zeros(n)) == 0
  {
    if n > 0 {
      assert Zeros(n)[..n - 1] == Zeros(n - 1);
      ValueZeros(n - 1);
    }
  }

  /** A digit string of known length is determined by its number. */
  lemma {:induction false} SameLengthSameValue(s: string, t: string)
    requires AllDigits(s) && AllDigits(t) && |s| == |t| && Value(s) == Value(t)
    ensures s == t
  {
    if s != [] {
      SameLengthSameValue(s[..|s| - 1], t[..|t| - 1]);
      assert s == s[..|s| - 1] + [s[|s| - 1]];
      assert t == t[..|t| - 1] + [t[|t| - 1]];
    }
  }

  lemma {:induction false} NumeralValue(n: nat)
    ensures Value(Numeral(n)) == n
  {
    if n < 10 {
      assert Numeral(n)[..0] == [];
    } else {
      NumeralValue(n / 10);
      assert Numeral(n)[..|Numeral(n)| - 1] == Numeral(n / 10);
    }
  }

  lemma AtLeastOnce(d: nat, p: nat)
    requires d >= 1
    ensures d * p >= p
  {
  }

  /** A canonical string has the leading digit its length promises. */
  lemma CanonicalLower(s: string)
    requires Canonical(s) && |s| > 1
    ensures Value(s) >= Pow10(|s| - 1)
  {
    var d := DigitValue(s[0]);
    assert s == s[..1] + s[1..];
    assert Value(s[..1]) == d by {
      assert s[..1][..0] == [];
    }
    ValueConcat(s[..1], s[1..]);
    AtLeastOnce(d, Pow10(|s| - 1));
  }

  lemma {:induction false} Pow10Monotone(a: nat, b: nat)
    requires a <= b
    ensures Pow10(a) <= Pow10(b)
  {
    if a < b {
      Pow10Monotone(a, b - 1);
    }
  }

  /** Canonical numerals are unique. */
  lemma CanonicalUnique(s: string, t: string)
    requires Canonical(s) && Canonical(t) && Value(s) == Value(t)
    ensures s == t
  {
    ValueBound(s);
    ValueBound(t);
    if |s| < |t| {
      Pow10Monotone(|s|, |t| - 1);
      CanonicalLower(t);
    } else if |t| < |s| {
      Pow10Monotone(|t|, |s| - 1);
      CanonicalLower(s);
    }
    SameLengthSameValue(s, t);
  }

  lemma NumeralOfValue(s: string)
    requires Canonical(s)
    ensures Numeral(Value(s)) == s
  {
    NumeralValue(Value(s));
    CanonicalUnique(Numeral(Value(s)), s);
  }

  /** The numeral of `n`, zero-filled on the left to at least `width` digits. */
  function Wide(n: nat, width: nat): (s: string)
    ensures AllDigits(s) && |s| >= width && s != []
  {
    var s := Numeral(n);
    if |s| >= width then s else Zeros(width - |s|) + s
  }

  lemma WideValue(n: nat, width: nat)
    ensures Value(Wide(n, width)) == n
  {
    hide Value, Pow10, Numeral;
    NumeralValue(n);
    if |Numeral(n)| < width {
      ValueConcat(Zeros(width - |Numeral(n)|), Numeral(n));
      ValueZeros(width - |Numeral(n)|);
    }
  }

  /** A number below 10^k has at most k digits (k > 0). */
  lemma NumeralLength(n: nat, k: nat)
    requires k > 0 && n < Pow10(k)
    ensures |Numeral(n)| <= k
  {
    NumeralValue(n);
    if |Numeral(n)| > k {
      Pow10Monotone(k, |Numeral(n)| - 1);
      CanonicalLower(Numeral(n));
    }
  }

  /** `Wide` finds any digit string back whose leading zeros are only the forced ones. */
  lemma WideOfValue(i: string, f: string)
    requires Canonical(i) && AllDigits(f)
    ensures AllDigits(i + f) && Wide(Value(i + f), |f| + 1) == i + f
  {
    if |i| == 1 {
      WideOfOneDigit(i + f);
    } else {
      assert (i + f)[0] == i[0];
      NumeralOfValue(i + f);
    }
  }

  lemma WideOfOneDigit(s: string)
    requires AllDigits(s) && s != []
    ensures Wide(Value(s), |s|) == s
  {
    ValueBound(s);
    NumeralLength(Value(s), |s|);
    WideValue(Value(s), |s|);
    SameLengthSameValue(Wide(Value(s), |s|), s);
  }
}
