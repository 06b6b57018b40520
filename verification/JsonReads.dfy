/** The reader of module Json reads every written form, to the value that the form means. */
module JsonReads {
  import opened Prelude
  import opened Json
  import opened JsonForms

  // ---- Pieces of a text ----

  /** The piece t stands in s at position p. */
  predicate Stands(s: Text, t: Text, p: nat) {
    p + |t| <= |s| && forall i | 0 <= i < |t| :: s[p + i] == t[i]
  }

  lemma StandsConcat(s: Text, a: Text, b: Text, p: nat)
    ensures Stands(s, a + b, p) <==> Stands(s, a, p) && Stands(s, b, p + |a|)
  {
    if Stands(s, a + b, p) {
      forall i | 0 <= i < |a|
        ensures s[p + i] == a[i]
      {
        assert s[p + i] == (a + b)[i];
      }
      forall i | 0 <= i < |b|
        ensures s[p + |a| + i] == b[i]
      {
        assert s[p + (|a| + i)] == (a + b)[|a| + i];
      }
    }
    if Stands(s, a, p) && Stands(s, b, p + |a|) {
      forall i | 0 <= i < |a + b|
        ensures s[p + i] == (a + b)[i]
      {
        if i >= |a| {
          assert s[p + |a| + (i - |a|)] == b[i - |a|];
        }
      }
    }
  }

  lemma StandsOne(s: Text, c: nat, p: nat)
    ensures Stands(s, [c], p) <==> p < |s| && s[p] == c
  {
    if Stands(s, [c], p) {
      assert s[p + 0] == [c][0];
    }
  }

  /** A value has ended where the text ends, or white space, a comma, a colon or a closing
      bracket stands. */
  predicate Ends(s: Text, p: nat) {
    p >= |s| || s[p] in {32, 9, 10, 13, 44, 58, 93, 125}
  }

  lemma {:induction false} SkipsWhite(s: Text, w: Text, p: nat)
    requires Stands(s, w, p) && AllWhite(w)
    requires p + |w| == |s| || s[p + |w|] !in {32, 9, 10, 13}
    ensures SkipWhite(s, p) == p + |w|
    decreases |w|
  {
    if w != [] {
      assert w == [w[0]] + w[1..];
      StandsConcat(s, [w[0]], w[1..], p);
      StandsOne(s, w[0], p);
      SkipsWhite(s, w[1..], p + 1);
    }
  }

  /** No digit stands here. */
  predicate NoDigit(s: Text, p: nat) {
    p >= |s| || !Digit(s[p])
  }

  lemma {:induction false} SkipsDigits(s: Text, digits: Text, p: nat)
    requires Stands(s, digits, p) && forall i | 0 <= i < |digits| :: Digit(digits[i])
    requires NoDigit(s, p + |digits|)
    ensures SkipDigits(s, p) == p + |digits|
    decreases |digits|
  {
    if digits != [] {
      assert digits == [digits[0]] + digits[1..];
      StandsConcat(s, [digits[0]], digits[1..], p);
      StandsOne(s, digits[0], p);
      SkipsDigits(s, digits[1..], p + 1);
    }
  }

  // ---- Strings ----

  lemma HexIs(c: nat)
    ensures HexDigit(c) == if Hex(c) then Some(HexValue(c)) else None
  {
  }

  lemma ReadsHex(s: Text, hex: Text, p: nat)
    requires IsCode(hex) && Stands(s, hex, p)
    ensures Hex4(s, p) == Some(CodeOf(hex))
  {
    hide HexDigit, Hex, HexValue;
    assert s[p + 0] == hex[0] && s[p + 1] == hex[1] && s[p + 2] == hex[2] && s[p + 3] == hex[3];
    HexIs(hex[0]);
    HexIs(hex[1]);
    HexIs(hex[2]);
    HexIs(hex[3]);
  }

  lemma ReadsEscape(letter: nat)
    requires letter in {34, 92, 47, 98, 102, 110, 114, 116}
    ensures SimpleEscape(letter) == Some(LetterValue(Escaped(letter)))
  {
  }

  lemma CodedStart(s: Text, p: nat, hex: Text)
    requires IsCode(hex) && Stands(s, [92, 117] + hex, p)
    ensures p + 6 <= |s| && s[p] == 92 && s[p + 1] == 117 && Hex4(s, p + 2) == Some(CodeOf(hex))
  {
    StandsConcat(s, [92, 117], hex, p);
    assert s[p + 0] == [92, 117][0] && s[p + 1] == [92, 117][1];
    ReadsHex(s, hex, p + 2);
  }

  /** How a character begins. */
  predicate Begins(s: Text, p: nat, l: Letter)
    requires IsLetter(l)
  {
    p < |s| &&
    match l
    case Plain(c) => s[p] == c
    case Escaped(letter) => p + 1 < |s| && s[p] == 92 && s[p + 1] == letter
    case Coded(hex) => p + 6 <= |s| && s[p] == 92 && s[p + 1] == 117 && Hex4(s, p + 2) == Some(CodeOf(hex))
    case Paired(high, low) =>
      && p + 12 <= |s| && s[p] == 92 && s[p + 1] == 117 && Hex4(s, p + 2) == Some(CodeOf(high))
      && s[p + 6] == 92 && s[p + 7] == 117 && Hex4(s, p + 8) == Some(CodeOf(low))
  }

  lemma LetterBegins(s: Text, p: nat, l: Letter)
    requires IsLetter(l) && Stands(s, LetterText(l), p)
    ensures Begins(s, p, l)
  {
    hide Hex4, CodeOf;
    match l
    case Plain(c) => StandsOne(s, c, p);
    case Escaped(letter) => assert s[p + 0] == [92, letter][0] && s[p + 1] == [92, letter][1];
    case Coded(hex) => CodedStart(s, p, hex);
    case Paired(high, low) =>
      StandsConcat(s, [92, 117] + high, [92, 117] + low, p);
      CodedStart(s, p, high);
      CodedStart(s, p + 6, low);
  }

  /** What stands behind a character: the quote, or how the next character begins. */
  lemma QuotedBegins(s: Text, p: nat, letters: seq<Letter>)
    requires AreLetters(letters) && Stands(s, QuotedText(letters), p)
    ensures p < |s| && if letters == [] then s[p] == 34 else Begins(s, p, letters[0])
  {
    if letters == [] {
      StandsOne(s, 34, p);
    } else {
      StandsConcat(s, LetterText(letters[0]), QuotedText(letters[1..]), p);
      LetterBegins(s, p, letters[0]);
    }
  }

  /** A code on its own: what follows it is not the second half of a pair. */
  lemma CodeAlone(s: Text, p: nat, hex: Text, rest: seq<Letter>)
    requires IsCode(hex) && AreLetters(rest) && (rest != [] ==> Splits(Coded(hex), rest[0]))
    requires Begins(s, p, Coded(hex)) && Stands(s, QuotedText(rest), p + 6)
    ensures Character(s, p) == Some((CodeOf(hex), p + 6))
  {
    hide Hex4, CodeOf, QuotedText, Stands;
    QuotedBegins(s, p + 6, rest);
  }

  lemma PairTogether(s: Text, p: nat, high: Text, low: Text)
    requires IsLetter(Paired(high, low)) && Begins(s, p, Paired(high, low))
    ensures Character(s, p) == Some((LetterValue(Paired(high, low)), p + 12))
  {
    hide Hex4, CodeOf;
  }

  lemma ReadsLetter(s: Text, p: nat, l: Letter, rest: seq<Letter>)
    requires IsLetter(l) && AreLetters(rest) && (rest != [] ==> Splits(l, rest[0]))
    requires Stands(s, LetterText(l), p) && Stands(s, QuotedText(rest), p + |LetterText(l)|)
    ensures p < |s| && s[p] != 34 && Character(s, p) == Some((LetterValue(l), p + |LetterText(l)|))
  {
    LetterBegins(s, p, l);
    hide Hex4, CodeOf, QuotedText, Stands, AreLetters, SimpleEscape;
    match l
    case Plain(c) =>
    case Escaped(letter) => ReadsEscape(letter);
    case Coded(hex) =>
      CodeAlone(s, p, hex, rest);
      hide Character;
    case Paired(high, low) => PairTogether(s, p, high, low);
  }

  lemma {:induction false} ReadsLetters(s: Text, p: nat, letters: seq<Letter>)
    requires AreLetters(letters) && Stands(s, QuotedText(letters), p)
    ensures StringFrom(s, p) == Some((LettersValue(letters), p + |QuotedText(letters)|))
    decreases |letters|
  {
    hide Character, LetterText, LetterValue, Stands;
    if letters == [] {
      StandsOne(s, 34, p);
    } else {
      var l, rest := letters[0], letters[1..];
      StandsConcat(s, LetterText(l), QuotedText(rest), p);
      assert AreLetters(rest) && (rest != [] ==> Splits(l, rest[0])) by {
        assert forall i | 0 <= i < |rest| :: rest[i] == letters[i + 1];
      }
      ReadsLetter(s, p, l, rest);
      ReadsLetters(s, p + |LetterText(l)|, rest);
    }
  }

  // ---- Words and numbers ----

  lemma LiteralStands(s: Text, p: nat, word: string)
    ensures LiteralAt(s, p, word) <==> Stands(s, Ascii(word), p)
    ensures LiteralAt(s, p, word) && |word| > 1 ==> s[p] == word[0] as int && s[p + 1] == word[1] as int
  {
    if LiteralAt(s, p, word) {
      forall i | 0 <= i < |word|
        ensures s[p + i] == Ascii(word)[i]
      {
        assert s[p + i] == s[p..p + |word|][i];
      }
      if |word| > 1 {
        assert s[p + 0] == Ascii(word)[0] && s[p + 1] == Ascii(word)[1];
      }
    }
  }

  lemma ReadsWord(s: Text, p: nat, w: Word)
    requires Stands(s, Ascii(WordText(w)), p)
    ensures p < |s| && s[p] !in {34, 91, 123}
    ensures ScalarAt(s, p) == Some((WordValue(w), p + |WordText(w)|))
  {
    hide LiteralAt, Stands, NumberEnd;
    LiteralStands(s, p, WordText(w));
    LiteralStands(s, p, "null");
    LiteralStands(s, p, "true");
    LiteralStands(s, p, "false");
    LiteralStands(s, p, "NaN");
    LiteralStands(s, p, "Infinity");
    LiteralStands(s, p, "-Infinity");
    StandsInside(s, Ascii(WordText(w)), p);
  }

  lemma StandsInside(s: Text, t: Text, p: nat)
    requires Stands(s, t, p) && t != []
    ensures p < |s| && s[p] == t[0] && p + |t| <= |s|
  {
    assert s[p + 0] == t[0];
  }

  /** From behind the digits of the whole part on. */
  lemma ReadsExponent(s: Text, p: nat, exponent: Option<Exponent>)
    requires exponent.Some? ==>
      exponent.value.letter in {101, 69} && exponent.value.sign in {[], [43], [45]} && AreDigits(exponent.value.digits)
    requires Stands(s, ExponentText(exponent), p) && Ends(s, p + |ExponentText(exponent)|)
    ensures p <= |s| && ExponentEnd(s, p) == p + |ExponentText(exponent)|
  {
    if exponent.Some? {
      var e := exponent.value;
      var d := p + 1 + |e.sign|;
      StandsConcat(s, [e.letter] + e.sign, e.digits, p);
      StandsConcat(s, [e.letter], e.sign, p);
      StandsOne(s, e.letter, p);
      StandsInside(s, e.digits, d);
      if e.sign != [] {
        StandsInside(s, e.sign, p + 1);
      }
      SkipsDigits(s, e.digits, d);
    }
  }

  /** The end of the exponent at p, or p. */
  function ExponentEnd(s: Text, p: nat): nat
    requires p <= |s|
  {
    if p < |s| && (s[p] == 101 || s[p] == 69) then
      var d := if p + 1 < |s| && (s[p + 1] == 43 || s[p + 1] == 45) then p + 2 else p + 1;
      if d < |s| && 48 <= s[d] <= 57 then SkipDigits(s, d) else p
    else p
  }

  function FractionEnd(s: Text, p: nat): (q: nat)
    requires p <= |s|
    ensures p <= q <= |s|
  {
    if p + 1 < |s| && s[p] == 46 && 48 <= s[p + 1] <= 57 then SkipDigits(s, p + 1) else p
  }

  lemma ReadsFraction(s: Text, p: nat, fraction: Option<Text>)
    requires fraction.Some? ==> AreDigits(fraction.value)
    requires Stands(s, FractionText(fraction), p) && NoDigit(s, p + |FractionText(fraction)|)
    requires fraction.None? ==> p >= |s| || s[p] != 46
    ensures p <= |s| && FractionEnd(s, p) == p + |FractionText(fraction)|
  {
    if fraction.Some? {
      StandsConcat(s, [46], fraction.value, p);
      StandsOne(s, 46, p);
      StandsInside(s, fraction.value, p + 1);
      SkipsDigits(s, fraction.value, p + 1);
    }
  }

  /** The reader's end of a number, in its three parts. */
  lemma NumberEndIs(s: Text, p: nat, i: nat, afterInt: nat)
    requires p < |s| && i == (if s[p] == 45 then p + 1 else p) && i < |s| && Digit(s[i])
    requires afterInt == if s[i] == 48 then i + 1 else SkipDigits(s, i + 1)
    ensures NumberEnd(s, p) == Some(ExponentEnd(s, FractionEnd(s, afterInt)))
  {
    hide SkipDigits;
  }

  lemma ReadsWhole(s: Text, p: nat, whole: Text)
    requires whole != [] && AreDigits(whole) && (whole[0] == 48 ==> |whole| == 1)
    requires Stands(s, whole, p) && NoDigit(s, p + |whole|)
    ensures p < |s| && s[p] == whole[0]
    ensures (if s[p] == 48 then p + 1 else SkipDigits(s, p + 1)) == p + |whole|
  {
    hide *;
    var c, rest := whole[0], whole[1..];
    DigitsTail(whole);
    StandsConcat(s, [c], rest, p);
    StandsOne(s, c, p);
    if c != 48 {
      SkipsDigits(s, rest, p + 1);
    }
  }

  lemma DigitsTail(whole: Text)
    requires AreDigits(whole)
    ensures whole != [] && whole == [whole[0]] + whole[1..]
    ensures forall i | 0 <= i < |whole[1..]| :: Digit(whole[1..][i])
  {
  }

  lemma NumberParts(s: Text, p: nat, minus: bool, whole: Text, fraction: Option<Text>, exponent: Option<Exponent>)
    requires Stands(s, NumberText(minus, whole, fraction, exponent), p)
    ensures var i := p + if minus then 1 else 0;
      && (minus ==> p < |s| && s[p] == 45)
      && Stands(s, whole, i) && Stands(s, FractionText(fraction), i + |whole|)
      && Stands(s, ExponentText(exponent), i + |whole| + |FractionText(fraction)|)
      && p + |NumberText(minus, whole, fraction, exponent)| == i + |whole| + |FractionText(fraction)| + |ExponentText(exponent)|
  {
    hide Stands, FractionText, ExponentText;
    var sign: Text := if minus then [45] else [];
    var f, e := FractionText(fraction), ExponentText(exponent);
    StandsConcat(s, sign, whole + (f + e), p);
    StandsConcat(s, whole, f + e, p + |sign|);
    StandsConcat(s, f, e, p + |sign| + |whole|);
    StandsOne(s, 45, p);
  }

  /** What begins a part of a number. */
  lemma PartBegins(s: Text, p: nat, fraction: Option<Text>, exponent: Option<Exponent>)
    requires Stands(s, FractionText(fraction), p) && Stands(s, ExponentText(exponent), p + |FractionText(fraction)|)
    requires exponent.Some? ==> exponent.value.letter in {101, 69}
    requires Ends(s, p + |FractionText(fraction)| + |ExponentText(exponent)|)
    ensures NoDigit(s, p) && NoDigit(s, p + |FractionText(fraction)|)
    ensures fraction.None? ==> p >= |s| || s[p] != 46
  {
    if fraction.Some? {
      StandsInside(s, FractionText(fraction), p);
    }
    if exponent.Some? {
      StandsInside(s, ExponentText(exponent), p + |FractionText(fraction)|);
    }
  }

  lemma ReadsNumber(s: Text, p: nat, minus: bool, whole: Text, fraction: Option<Text>, exponent: Option<Exponent>)
    requires IsNumber(whole, fraction, exponent)
    requires Stands(s, NumberText(minus, whole, fraction, exponent), p)
    requires Ends(s, p + |NumberText(minus, whole, fraction, exponent)|)
    ensures p < |s| && s[p] !in {34, 91, 123}
    ensures ScalarAt(s, p) == Some((Num, p + |NumberText(minus, whole, fraction, exponent)|))
  {
    hide Stands, Ends, NumberText, FractionText, ExponentText, FractionEnd, ExponentEnd, LiteralAt, NumberEnd, SkipDigits;
    var i := p + if minus then 1 else 0;
    var f := i + |whole|;
    NumberParts(s, p, minus, whole, fraction, exponent);
    PartBegins(s, f, fraction, exponent);
    ReadsWhole(s, i, whole);
    ReadsFraction(s, f, fraction);
    ReadsExponent(s, f + |FractionText(fraction)|, exponent);
    NumberEndIs(s, p, i, f);
    NotAWord(s, p, i);
  }

  lemma NotAWord(s: Text, p: nat, i: nat)
    requires p < |s| && i < |s| && Digit(s[i]) && i == (if s[p] == 45 then p + 1 else p)
    ensures !LiteralAt(s, p, "null") && !LiteralAt(s, p, "true") && !LiteralAt(s, p, "false")
    ensures !LiteralAt(s, p, "NaN") && !LiteralAt(s, p, "Infinity") && !LiteralAt(s, p, "-Infinity")
  {
    LiteralStands(s, p, "null");
    LiteralStands(s, p, "true");
    LiteralStands(s, p, "false");
    LiteralStands(s, p, "NaN");
    LiteralStands(s, p, "Infinity");
    LiteralStands(s, p, "-Infinity");
    hide LiteralAt, Stands, Ascii;
  }

  // ---- Values ----

  lemma WordBegins(s: Text, p: nat, w: Word)
    requires Stands(s, Ascii(WordText(w)), p)
    ensures p < |s| && s[p] !in {32, 9, 10, 13, 44, 58, 93, 125} && s[p] < 0x80
  {
    StandsInside(s, Ascii(WordText(w)), p);
  }

  lemma NumberBegins(s: Text, p: nat, minus: bool, whole: Text, fraction: Option<Text>, exponent: Option<Exponent>)
    requires IsNumber(whole, fraction, exponent) && Stands(s, NumberText(minus, whole, fraction, exponent), p)
    ensures p < |s| && s[p] !in {32, 9, 10, 13, 44, 58, 93, 125} && s[p] < 0x80
  {
    hide Stands, NumberText;
    NumberParts(s, p, minus, whole, fraction, exponent);
    StandsInside(s, whole, p + if minus then 1 else 0);
  }

  /** No value begins with white space, a comma, a colon or a closing bracket. */
  lemma FormBegins(s: Text, p: nat, f: Form)
    requires IsForm(f) && Stands(s, FormText(f), p)
    ensures p < |s| && s[p] !in {32, 9, 10, 13, 44, 58, 93, 125} && s[p] < 0x80
  {
    hide Stands, QuotedText, ItemsText, MembersText, Ascii, NumberText, IsNumber;
    match f
    case WordForm(w) => WordBegins(s, p, w);
    case NumberForm(minus, whole, fraction, exponent) => NumberBegins(s, p, minus, whole, fraction, exponent);
    case StringForm(letters) => StandsInside(s, [34] + QuotedText(letters), p);
    case EmptyList(white) => StandsInside(s, [91] + (white + [93]), p);
    case List(items) => StandsInside(s, [91] + ItemsText(items), p);
    case EmptyObject(white) => StandsInside(s, [123] + (white + [125]), p);
    case Object(members) => StandsInside(s, [123] + MembersText(members), p);
  }

  /** White space and then a comma, a colon or a closing bracket end a value. */
  lemma EndsBehind(s: Text, p: nat, white: Text, c: nat)
    requires AllWhite(white) && Stands(s, white, p) && p + |white| < |s| && s[p + |white|] == c && c in {44, 58, 93, 125}
    ensures Ends(s, p) && SkipWhite(s, p) == p + |white|
  {
    SkipsWhite(s, white, p);
    if white != [] {
      StandsInside(s, white, p);
    }
  }

  lemma ReadsScalar(s: Text, p: nat, depth: nat, v: Value, end: nat)
    requires p < |s| && s[p] !in {34, 91, 123} && depth > 0 && ScalarAt(s, p) == Some((v, end))
    ensures ValueAt(s, p, depth) == Some((v, end))
  {
    hide ScalarAt;
  }

  lemma ReadsString(s: Text, p: nat, depth: nat, letters: seq<Letter>)
    requires AreLetters(letters) && Stands(s, [34] + QuotedText(letters), p) && depth > 0
    ensures p <= |s| && ValueAt(s, p, depth) == Some((Str(LettersValue(letters)), p + 1 + |QuotedText(letters)|))
  {
    StandsConcat(s, [34], QuotedText(letters), p);
    StandsOne(s, 34, p);
    ReadsLetters(s, p + 1, letters);
    hide StringFrom, QuotedText, Stands;
  }

  /** An opening bracket, white space, and the closing bracket. */
  lemma ReadsEmpty(s: Text, p: nat, depth: nat, open: nat, white: Text, close: nat)
    requires AllWhite(white) && Stands(s, [open] + (white + [close]), p) && depth > 0
    requires (open == 91 && close == 93) || (open == 123 && close == 125)
    ensures p <= |s|
    ensures ValueAt(s, p, depth) == Some((if open == 91 then Arr([]) else Obj([]), p + 2 + |white|))
  {
    var q := p + 1 + |white|;
    StandsConcat(s, [open], white + [close], p);
    StandsConcat(s, white, [close], p + 1);
    StandsOne(s, open, p);
    StandsOne(s, close, q);
    EndsBehind(s, p + 1, white, close);
    hide Stands, SkipWhite, StringFrom, ItemsAt, MembersAt, ScalarAt;
  }

  lemma OpensList(s: Text, p: nat, depth: nat, q: nat)
    requires p < |s| && s[p] == 91 && depth > 0 && q == SkipWhite(s, p + 1) && q < |s| && s[q] != 93
    ensures ValueAt(s, p, depth) == ItemsAt(s, q, depth - 1, [])
  {
    hide SkipWhite, ItemsAt;
  }

  lemma OpensObject(s: Text, p: nat, depth: nat, q: nat)
    requires p < |s| && s[p] == 123 && depth > 0 && q == SkipWhite(s, p + 1) && q < |s| && s[q] != 125
    ensures ValueAt(s, p, depth) == MembersAt(s, q, depth - 1, [])
  {
    hide SkipWhite, MembersAt;
  }

  /** One item and what stands behind it. */
  lemma ItemStep(s: Text, p: nat, depth: nat, done: seq<Value>, v: Value, end: nat, q: nat)
    requires p <= |s| && ValueAt(s, p, depth) == Some((v, end)) && end <= |s| && SkipWhite(s, end) == q && q < |s|
    ensures s[q] == 93 ==> ItemsAt(s, p, depth, done) == Some((Arr(done + [v]), q + 1))
    ensures s[q] == 44 ==> ItemsAt(s, p, depth, done) == ItemsAt(s, SkipWhite(s, q + 1), depth, done + [v])
  {
    hide ValueAt, SkipWhite;
  }

  lemma ItemsParts(s: Text, p: nat, items: Items)
    requires AreItems(items) && Stands(s, ItemsText(items), p)
    ensures var q := p + |items.before|;
      var end := q + |FormText(items.form)|;
      var c := end + |items.after|;
      && Stands(s, items.before, p) && Stands(s, FormText(items.form), q) && Stands(s, items.after, end) && c < |s|
      && (items.LastItem? ==> s[c] == 93 && p + |ItemsText(items)| == c + 1)
      && (items.NextItem? ==> s[c] == 44 && Stands(s, ItemsText(items.rest), c + 1)
                              && p + |ItemsText(items)| == c + 1 + |ItemsText(items.rest)|)
  {
    hide Stands, FormText;
    var tail := if items.LastItem? then [93] else [44] + ItemsText(items.rest);
    var q := p + |items.before|;
    var end := q + |FormText(items.form)|;
    var c := end + |items.after|;
    StandsConcat(s, items.before, FormText(items.form) + (items.after + tail), p);
    StandsConcat(s, FormText(items.form), items.after + tail, q);
    StandsConcat(s, items.after, tail, end);
    StandsOne(s, 93, c);
    StandsOne(s, 44, c);
    if items.NextItem? {
      StandsConcat(s, [44], ItemsText(items.rest), c);
    }
  }

  /** Every form is read as the value it means, up to its end, when it is nested no deeper
      than the reader follows. */
  lemma {:induction false} ReadsForm(s: Text, p: nat, f: Form, depth: nat)
    requires IsForm(f) && Stands(s, FormText(f), p) && Ends(s, p + |FormText(f)|) && FormDepth(f) <= depth
    ensures p <= |s| && ValueAt(s, p, depth) == Some((FormValue(f), p + |FormText(f)|))
    decreases f
  {
    hide *;
    match f
    case List(items) =>
      ListUnfolds(items);
      ReadsList(s, p, items, depth);
    case Object(members) =>
      ObjectUnfolds(members);
      ReadsObject(s, p, members, depth);
    case _ => ReadsLeaf(s, p, f, depth);
  }

  lemma ReadsLeaf(s: Text, p: nat, f: Form, depth: nat)
    requires IsForm(f) && Stands(s, FormText(f), p) && Ends(s, p + |FormText(f)|) && !f.List? && !f.Object? && depth > 0
    ensures p <= |s| && ValueAt(s, p, depth) == Some((FormValue(f), p + |FormText(f)|))
  {
    hide Stands, Ends, ScalarAt, ValueAt, QuotedText, NumberText, Ascii;
    match f
    case WordForm(w) =>
      ReadsWord(s, p, w);
      ReadsScalar(s, p, depth, WordValue(w), p + |WordText(w)|);
    case NumberForm(minus, whole, fraction, exponent) =>
      ReadsNumber(s, p, minus, whole, fraction, exponent);
      ReadsScalar(s, p, depth, Num, p + |FormText(f)|);
    case StringForm(letters) => ReadsString(s, p, depth, letters);
    case EmptyList(white) => ReadsEmpty(s, p, depth, 91, white, 93);
    case EmptyObject(white) => ReadsEmpty(s, p, depth, 123, white, 125);
  }

  lemma Behind(s: Text, p: nat, c: nat, rest: Text)
    requires Stands(s, [c] + rest, p)
    ensures p < |s| && s[p] == c && Stands(s, rest, p + 1)
  {
    StandsConcat(s, [c], rest, p);
    StandsOne(s, c, p);
  }

  lemma EmptyDict()
    ensures Dict([]) == []
  {
  }

  lemma NothingInFront<T>(t: seq<T>)
    ensures [] + t == t
  {
  }

  lemma {:induction false} ReadsList(s: Text, p: nat, items: Items, depth: nat)
    requires AreItems(items) && Stands(s, [91] + ItemsText(items), p) && ItemsDepth(items) < depth
    ensures p <= |s| && ValueAt(s, p, depth) == Some((Arr(ItemValues(items)), p + 1 + |ItemsText(items)|))
    decreases items, 1
  {
    hide *;
    Behind(s, p, 91, ItemsText(items));
    ReadsItems(s, p + 1, items, depth - 1, []);
    OpensList(s, p, depth, p + 1 + |items.before|);
    NothingInFront(ItemValues(items));
  }

  lemma {:induction false} ReadsObject(s: Text, p: nat, members: Members, depth: nat)
    requires AreMembers(members) && Stands(s, [123] + MembersText(members), p) && MembersDepth(members) < depth
    ensures p <= |s| && ValueAt(s, p, depth) == Some((Obj(Dict(MemberPairs(members))), p + 1 + |MembersText(members)|))
    decreases members, 1
  {
    hide *;
    EmptyDict();
    Behind(s, p, 123, MembersText(members));
    ReadsMembers(s, p + 1, members, depth - 1, []);
    OpensObject(s, p, depth, p + 1 + |members.before|);
    NothingInFront(MemberPairs(members));
  }

  lemma {:induction false} ReadsItems(s: Text, p: nat, items: Items, depth: nat, done: seq<Value>)
    requires AreItems(items) && Stands(s, ItemsText(items), p) && ItemsDepth(items) <= depth
    ensures p <= |s| && SkipWhite(s, p) == p + |items.before| && p + |items.before| < |s| && s[p + |items.before|] != 93
    ensures ItemsAt(s, p + |items.before|, depth, done) == Some((Arr(done + ItemValues(items)), p + |ItemsText(items)|))
    decreases items, 0
  {
    hide Stands, Ends, ValueAt, ItemsAt, FormText, ItemsText, SkipWhite, FormDepth, FormValue;
    var q := p + |items.before|;
    var end := q + |FormText(items.form)|;
    var c, v := end + |items.after|, FormValue(items.form);
    ItemsParts(s, p, items);
    FormBegins(s, q, items.form);
    SkipsWhite(s, items.before, p);
    EndsBehind(s, end, items.after, s[c]);
    ReadsForm(s, q, items.form, depth);
    ItemStep(s, q, depth, done, v, end, c);
    if items.NextItem? {
      ReadsItems(s, c + 1, items.rest, depth, done + [v]);
      assert done + [v] + ItemValues(items.rest) == done + ([v] + ItemValues(items.rest));
    } else {
      assert [v] + [] == [v];
    }
  }

  lemma MemberStep(s: Text, p: nat, depth: nat, done: seq<(Text, Value)>, key: Text, afterKey: nat, colon: nat, at: nat,
                   v: Value, end: nat, q: nat)
    requires p < |s| && s[p] == 34 && StringFrom(s, p + 1) == Some((key, afterKey)) && afterKey <= |s|
    requires SkipWhite(s, afterKey) == colon && colon < |s| && s[colon] == 58
    requires SkipWhite(s, colon + 1) == at && at <= |s| && ValueAt(s, at, depth) == Some((v, end)) && end <= |s|
    requires SkipWhite(s, end) == q && q < |s|
    ensures s[q] == 125 ==> MembersAt(s, p, depth, done) == Some((Obj(Put(done, key, v)), q + 1))
    ensures s[q] == 44 ==> MembersAt(s, p, depth, done) == MembersAt(s, SkipWhite(s, q + 1), depth, Put(done, key, v))
  {
    hide ValueAt, SkipWhite, StringFrom, Put;
  }

  /** Where the pieces of a member stand. */
  lemma MembersParts(s: Text, p: nat, members: Members)
    requires AreMembers(members) && Stands(s, MembersText(members), p)
    ensures var q := p + |members.before|;
      var colon := q + 1 + |QuotedText(members.key)| + |members.beforeColon|;
      var at := colon + 1 + |members.afterColon|;
      var end := at + |FormText(members.form)|;
      var c := end + |members.after|;
      && Stands(s, members.before, p) && q < |s| && s[q] == 34 && Stands(s, QuotedText(members.key), q + 1)
      && Stands(s, members.beforeColon, q + 1 + |QuotedText(members.key)|) && colon < |s| && s[colon] == 58
      && Stands(s, members.afterColon, colon + 1) && Stands(s, FormText(members.form), at)
      && Stands(s, members.after, end) && c < |s|
      && (members.LastMember? ==> s[c] == 125 && p + |MembersText(members)| == c + 1)
      && (members.NextMember? ==> s[c] == 44 && Stands(s, MembersText(members.rest), c + 1)
                                  && p + |MembersText(members)| == c + 1 + |MembersText(members.rest)|)
  {
    hide *;
    var tail: Text := if members.LastMember? then [125] else [44] + MembersText(members.rest);
    var valueOn := members.afterColon + (FormText(members.form) + (members.after + tail));
    MembersUnfold(members, tail);
    KeyParts(s, p, members.before, QuotedText(members.key), members.beforeColon, valueOn);
    ValueParts(s, p + |members.before| + 1 + |QuotedText(members.key)| + |members.beforeColon| + 1, members, tail);
  }

  lemma KeyParts(s: Text, p: nat, before: Text, key: Text, beforeColon: Text, rest: Text)
    requires Stands(s, before + ([34] + (key + (beforeColon + ([58] + rest)))), p)
    ensures var q := p + |before|;
      var colon := q + 1 + |key| + |beforeColon|;
      && Stands(s, before, p) && q < |s| && s[q] == 34 && Stands(s, key, q + 1)
      && Stands(s, beforeColon, q + 1 + |key|) && colon < |s| && s[colon] == 58 && Stands(s, rest, colon + 1)
  {
    hide Stands;
    var keyOn := key + (beforeColon + ([58] + rest));
    var q := p + |before|;
    StandsConcat(s, before, [34] + keyOn, p);
    StandsConcat(s, [34], keyOn, q);
    StandsOne(s, 34, q);
    StandsConcat(s, key, beforeColon + ([58] + rest), q + 1);
    StandsConcat(s, beforeColon, [58] + rest, q + 1 + |key|);
    StandsConcat(s, [58], rest, q + 1 + |key| + |beforeColon|);
    StandsOne(s, 58, q + 1 + |key| + |beforeColon|);
  }

  lemma ValueParts(s: Text, p: nat, members: Members, tail: Text)
    requires tail == if members.LastMember? then [125] else [44] + MembersText(members.rest)
    requires Stands(s, members.afterColon + (FormText(members.form) + (members.after + tail)), p)
    ensures var at := p + |members.afterColon|;
      var end := at + |FormText(members.form)|;
      var c := end + |members.after|;
      && Stands(s, members.afterColon, p) && Stands(s, FormText(members.form), at) && Stands(s, members.after, end) && c < |s|
      && (members.LastMember? ==> s[c] == 125)
      && (members.NextMember? ==> s[c] == 44 && Stands(s, MembersText(members.rest), c + 1))
  {
    hide Stands, FormText, MembersText;
    var at := p + |members.afterColon|;
    var end := at + |FormText(members.form)|;
    var c := end + |members.after|;
    StandsConcat(s, members.afterColon, FormText(members.form) + (members.after + tail), p);
    StandsConcat(s, FormText(members.form), members.after + tail, at);
    StandsConcat(s, members.after, tail, end);
    StandsOne(s, 125, c);
    StandsOne(s, 44, c);
    if members.NextMember? {
      StandsConcat(s, [44], MembersText(members.rest), c);
    }
  }

  lemma DictNext(pairs: seq<(Text, Value)>, key: Text, v: Value)
    ensures Put(Dict(pairs), key, v) == Dict(pairs + [(key, v)])
  {
    assert (pairs + [(key, v)])[..|pairs|] == pairs;
  }

  /** The members of an object, behind those already read. */
  lemma {:induction false} ReadsMembers(s: Text, p: nat, members: Members, depth: nat, pairs: seq<(Text, Value)>)
    requires AreMembers(members) && Stands(s, MembersText(members), p) && MembersDepth(members) <= depth
    ensures p <= |s| && SkipWhite(s, p) == p + |members.before| && p + |members.before| < |s| && s[p + |members.before|] != 125
    ensures MembersAt(s, p + |members.before|, depth, Dict(pairs))
         == Some((Obj(Dict(pairs + MemberPairs(members))), p + |MembersText(members)|))
    decreases members, 0
  {
    hide Stands, Ends, ValueAt, MembersAt, FormText, MembersText, SkipWhite, FormDepth, FormValue, QuotedText, LettersValue;
    hide StringFrom, Put, Dict;
    var q := p + |members.before|;
    var afterKey := q + 1 + |QuotedText(members.key)|;
    var colon := afterKey + |members.beforeColon|;
    var at := colon + 1 + |members.afterColon|;
    var end := at + |FormText(members.form)|;
    var c, key, v := end + |members.after|, LettersValue(members.key), FormValue(members.form);
    MembersParts(s, p, members);
    FormBegins(s, at, members.form);
    SkipsWhite(s, members.before, p);
    ReadsLetters(s, q + 1, members.key);
    EndsBehind(s, afterKey, members.beforeColon, 58);
    SkipsWhite(s, members.afterColon, colon + 1);
    EndsBehind(s, end, members.after, s[c]);
    ReadsForm(s, at, members.form, depth);
    MemberStep(s, q, depth, Dict(pairs), key, afterKey, colon, at, v, end, c);
    DictNext(pairs, key, v);
    if members.NextMember? {
      ReadsMembers(s, c + 1, members.rest, depth, pairs + [(key, v)]);
      assert pairs + [(key, v)] + MemberPairs(members.rest) == pairs + ([(key, v)] + MemberPairs(members.rest));
    } else {
      assert [(key, v)] + [] == [(key, v)];
    }
  }
}
