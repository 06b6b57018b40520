/**
 Thousands separators: the printer (frontend/src/display/format.ts) and the reader of
 number input fields (frontend/src/display/numberInput.ts).
 */
module NumberInput {
  import opened Prelude
  import opened Digits
  import opened DecimalText

  // ---- Printing ----

  /** A comma in front of every inner digit that starts a multiple of three digits. */
  function FirstOfGroup(i: string, k: nat): string
    requires k < |i|
  {
    (if k > 0 && (|i| - k) % 3 == 0 then "," else "") + [i[k]]
  }

  function GroupFrom(i: string, k: nat): string
    requires k <= |i|
    decreases |i| - k
  {
    if k == |i| then []
    else FirstOfGroup(i, k) + GroupFrom(i, k + 1)
  }

  function Group(i: string): string {
    GroupFrom(i, 0)
  }

  /** Separators in the integer part of a displayed text; sign and fraction stay. */
  function GroupText(formatted: string): string {
    var negative := formatted != [] && formatted[0] == '-';
    var unsigned := if negative then formatted[1..] else formatted;
    var k := Dot(unsigned);
    var grouped := Group(unsigned[..k]);
    var body := if k == |unsigned| then grouped else grouped + "." + unsigned[k + 1..];
    if negative then "-" + body else body
  }

  function FormatGrouped(value: string, digits: int): Result<string, Fault> {
    match Formatted(value, digits)
    case Err(e) => Err(e)
    case Ok(formatted) => Ok(GroupText(formatted))
  }

  // ---- Reading ----

  function RemoveCommas(s: string): (r: string)
    ensures ',' !in r
  {
    if s == [] then []
    else if s[0] == ',' then RemoveCommas(s[1..])
    else [s[0]] + RemoveCommas(s[1..])
  }

  predicate IsLead(p: string) {
    1 <= |p| <= 3 && AllDigits(p) && p[0] != '0'
  }

  /** `[1-9]\d{0,2}(,\d{3})+`, read from the right. */
  predicate IsGroups(h: string) {
    && |h| >= 5 && h[|h| - 4] == ',' && AllDigits(h[|h| - 3..])
    && (IsLead(h[..|h| - 4]) || IsGroups(h[..|h| - 4]))
  }

  /** The GROUPED grammar: sign, groups, and possibly a point with any digits after it. */
  predicate IsGrouped(t: string) {
    var u := Unsigned(t);
    var k := Dot(u);
    IsGroups(u[..k]) && (k < |u| ==> AllDigits(u[k + 1..]))
  }

  datatype Reading = NotANumber | Infinite | Finite(x: real)

  function Power10(e: int): real {
    if e >= 0 then Pow10(e) as real else 1.0 / Pow10(-e) as real
  }

  function Scaled(m: real, e: int): real {
    m * Power10(e)
  }

  /** Digits with an optional point; at least one digit. */
  function MantissaOf(m: string): Option<real> {
    var k := Dot(m);
    var i, f := m[..k], if k < |m| then m[k + 1..] else [];
    if AllDigits(i) && AllDigits(f) && (i != [] || f != []) then
      ValueConcat(i, f);
      Some(Value(i + f) as real / Pow10(|f|) as real)
    else None
  }

  function ExponentOf(e: string): Option<int> {
    var u := Unsigned(e);
    if u != [] && AllDigits(u) then Some(if e[0] == '-' then -(Value(u) as int) else Value(u)) else None
  }

  function ExponentMark(u: string): (k: nat)
    ensures k <= |u|
  {
    if u == [] || u[0] == 'e' || u[0] == 'E' then 0 else 1 + ExponentMark(u[1..])
  }

  function UnsignedDecimal(u: string): Option<real> {
    var k := ExponentMark(u);
    var m, e := MantissaOf(u[..k]), if k == |u| then Some(0) else ExponentOf(u[k + 1..]);
    if m.Some? && e.Some? then Some(Scaled(m.value, e.value)) else None
  }

  function DigitIn(radix: nat, c: char): Option<nat> {
    var v := if IsDigit(c) then DigitValue(c)
             else if 'a' <= c <= 'f' then 10 + (c - 'a') as int
             else if 'A' <= c <= 'F' then 10 + (c - 'A') as int
             else radix;
    if v < radix then Some(v) else None
  }

  function RadixValue(radix: nat, s: string): Option<nat> {
    if s == [] then Some(0)
    else match (RadixValue(radix, s[..|s| - 1]), DigitIn(radix, s[|s| - 1]))
      case (Some(high), Some(d)) => Some(radix * high + d)
      case _ => None
  }

  function RadixOf(c: char): Option<nat> {
    if c == 'x' || c == 'X' then Some(16)
    else if c == 'o' || c == 'O' then Some(8)
    else if c == 'b' || c == 'B' then Some(2)
    else None
  }

  /** `Number(text)` for a non-empty text without outer white space, without the
      rounding to binary: decimal literals, Infinity, and unsigned 0x / 0o / 0b. */
  function JsNumber(t: string): Reading {
    var u := Unsigned(t);
    if u == "Infinity" then Infinite
    else if |t| > 2 && t[0] == '0' && RadixOf(t[1]).Some? then
      match RadixValue(RadixOf(t[1]).value, t[2..])
      case Some(n) => Finite(n as real)
      case None => NotANumber
    else match UnsignedDecimal(u)
      case Some(x) => Finite(if t[..|t| - |u|] == "-" then -x else x)
      case None => NotANumber
  }

  /** What an input field means: nothing, something that is no number, or a number. */
  datatype Input = Missing | Unreadable | Entered(x: real)

  /** The part of NFKC that concerns number input: full-width forms become ASCII. */
  function Narrow(s: string): string {
    seq(|s|, i requires 0 <= i < |s| =>
      if '\U{FF01}' <= s[i] <= '\U{FF5E}' then ((s[i] as int) - 0xFEE0) as char
      else if s[i] == '\U{3000}' then ' ' else s[i])
  }

  function ReadNumberInput(raw: string): Input {
    var text := Trim(Narrow(raw));
    if text == [] then Missing
    else match JsNumber(if IsGrouped(text) then RemoveCommas(text) else text)
      case Finite(x) => Entered(x)
      case _ => Unreadable
  }

  // ---- The printed grouping ----

  lemma {:induction false} GroupTail(i: string, k: nat)
    requires |i| - 2 <= k <= |i|
    ensures GroupFrom(i, k) == i[k..]
    decreases |i| - k
  {
    if k < |i| {
      GroupTail(i, k + 1);
      assert i[k..] == [i[k]] + i[k + 1..];
    }
  }

  lemma Regroup(a: string, b: string, c: string, d: string)
    ensures a + (b + c + d) == a + b + c + d
  {
  }

  lemma {:induction false} GroupFromShorter(i: string, k: nat)
    requires |i| > 3 && k <= |i| - 3
    ensures GroupFrom(i, k) == GroupFrom(i[..|i| - 3], k) + "," + i[|i| - 3..]
    decreases |i| - k
  {
    var n := |i|;
    var j := i[..n - 3];
    if k == n - 3 {
      GroupTail(i, k + 1);
      assert GroupFrom(j, k) == [];
      assert i[k..] == [i[k]] + i[k + 1..];
      assert GroupFrom(i, k) == "," + [i[k]] + i[k + 1..];
    } else {
      hide *;
      GroupFromShorter(i, k + 1);
      GroupFromStep(i, j, k);
      var first, rest := FirstOfGroup(j, k), GroupFrom(j, k + 1);
      Regroup(first, rest, ",", i[n - 3..]);
    }
  }

  lemma GroupFromStep(i: string, j: string, k: nat)
    requires |i| == |j| + 3 && j == i[..|j|] && k < |j|
    ensures FirstOfGroup(i, k) == FirstOfGroup(j, k)
    ensures GroupFrom(i, k) == FirstOfGroup(i, k) + GroupFrom(i, k + 1)
    ensures GroupFrom(j, k) == FirstOfGroup(j, k) + GroupFrom(j, k + 1)
  {
    assert (|i| - k) % 3 == (|j| - k) % 3;
  }

  /** Grouping one group at a time from the right. */
  lemma GroupRight(i: string)
    ensures |i| <= 3 ==> Group(i) == i
    ensures |i| > 3 ==> Group(i) == Group(i[..|i| - 3]) + "," + i[|i| - 3..]
  {
    if |i| > 3 {
      GroupFromShorter(i, 0);
    } else if i != [] {
      GroupTail(i, 1);
      assert i == [i[0]] + i[1..];
    }
  }

  lemma {:induction false} RemoveCommasConcat(a: string, b: string)
    ensures RemoveCommas(a + b) == RemoveCommas(a) + RemoveCommas(b)
  {
    if a == [] {
      assert a + b == b;
    } else {
      assert (a + b)[1..] == a[1..] + b;
      RemoveCommasConcat(a[1..], b);
    }
  }

  lemma {:induction false} NothingToRemove(a: string)
    requires ',' !in a
    ensures RemoveCommas(a) == a
  {
    if a != [] {
      NothingToRemove(a[1..]);
    }
  }

  lemma DigitsHaveNoComma(a: string)
    requires AllDigits(a)
    ensures ',' !in a && '.' !in a
  {
  }

  lemma RemoveLastComma(a: string, b: string)
    requires AllDigits(b)
    ensures RemoveCommas(a + "," + b) == RemoveCommas(a) + b
  {
    RemoveCommasConcat(a + ",", b);
    RemoveCommasConcat(a, ",");
    NothingToRemove(b);
  }

  /** The grouping of a numeral of at least four digits has the grouped form, and
      dropping its commas gives the numeral back. */
  lemma {:induction false} GroupIsGroups(i: string)
    requires Canonical(i) && |i| >= 4
    ensures IsGroups(Group(i)) && RemoveCommas(Group(i)) == i
  {
    var head, last := i[..|i| - 3], i[|i| - 3..];
    GroupRight(i);
    var g := Group(head);
    var h := Group(i);
    assert h == g + "," + last;
    if |head| >= 4 {
      GroupIsGroups(head);
    } else {
      GroupRight(head);
      NothingToRemove(head);
    }
    assert h[..|h| - 4] == g && h[|h| - 3..] == last && h[|h| - 4] == ',';
    RemoveLastComma(g, last);
    assert head + last == i;
  }

  /** The grouped form is met only by groupings of numerals of at least four digits. */
  lemma {:induction false} GroupsAreGrouped(h: string)
    requires IsGroups(h)
    ensures Canonical(RemoveCommas(h)) && |RemoveCommas(h)| >= 4 && RemoveCommas(h)[0] != '0'
    ensures Group(RemoveCommas(h)) == h
  {
    var g, last := h[..|h| - 4], h[|h| - 3..];
    assert h == g + "," + last;
    if IsLead(g) {
      NothingToRemove(g);
      GroupRight(g);
    } else {
      GroupsAreGrouped(g);
    }
    RemoveLastComma(g, last);
    var i := RemoveCommas(h);
    assert i == RemoveCommas(g) + last;
    assert i[..|i| - 3] == RemoveCommas(g) && i[|i| - 3..] == last;
    GroupRight(i);
  }

  lemma {:induction false} GroupHasNoPoint(i: string, k: nat)
    requires AllDigits(i) && k <= |i|
    ensures forall j :: 0 <= j < |GroupFrom(i, k)| ==> IsDigit(GroupFrom(i, k)[j]) || GroupFrom(i, k)[j] == ','
    ensures k == 0 && i != [] ==> GroupFrom(i, k) != [] && GroupFrom(i, k)[0] == i[0]
    decreases |i| - k
  {
    if k < |i| {
      GroupHasNoPoint(i, k + 1);
    }
  }

  // ---- What the reader accepts ----

  /** A text in digits, groups or not: sign, integer part, and possibly a point. */
  function Assembled(sign: string, intPart: string, point: bool, fracPart: string): string {
    sign + (intPart + (if point then "." + fracPart else ""))
  }

  lemma AssembledParts(sign: string, intPart: string, point: bool, fracPart: string)
    requires sign in {"", "+", "-"} && intPart != [] && '.' !in intPart && IsDigit(intPart[0])
    ensures var t := Assembled(sign, intPart, point, fracPart);
      var u := Unsigned(t);
      && u == intPart + (if point then "." + fracPart else "")
      && t[..|t| - |u|] == sign
      && Dot(u) == |intPart| && u[..|intPart|] == intPart
      && (point ==> |intPart| < |u| && u[|intPart| + 1..] == fracPart)
      && (!point ==> |intPart| == |u|)
  {
    hide Dot, Unsigned;
    var tail := if point then "." + fracPart else "";
    UnsignedAssembled(sign, intPart, tail);
    DotAfter(intPart, tail);
  }

  lemma UnsignedAssembled(sign: string, intPart: string, tail: string)
    requires sign in {"", "+", "-"} && intPart != [] && IsDigit(intPart[0])
    ensures Unsigned(sign + (intPart + tail)) == intPart + tail
  {
    var t, u := sign + (intPart + tail), intPart + tail;
    assert u[0] == intPart[0];
    if sign == "" {
      assert t == u;
    } else {
      assert t[0] == sign[0] && t[1..] == u;
    }
  }

  lemma {:induction false} DotAfter(a: string, b: string)
    requires '.' !in a && (b == [] || b[0] == '.')
    ensures Dot(a + b) == |a|
  {
    if a != [] {
      assert (a + b)[1..] == a[1..] + b;
      assert a[0] in a;
      DotAfter(a[1..], b);
    } else {
      assert a + b == b;
    }
  }

  lemma {:induction false} NoExponentMark(u: string)
    requires forall k :: 0 <= k < |u| ==> IsDigit(u[k]) || u[k] == '.'
    ensures ExponentMark(u) == |u|
  {
    if u != [] {
      NoExponentMark(u[1..]);
    }
  }

  lemma PlainDigits(i: string, point: bool, f: string)
    requires AllDigits(i) && i != [] && AllDigits(f) && (!point ==> f == [])
    ensures UnsignedDecimal(Assembled("", i, point, f)) == Some(Magnitude(Decimal(false, i, f)))
  {
    hide Value, Unsigned, Assembled, Dot;
    var u := Assembled("", i, point, f);
    AssembledParts("", i, point, f);
    UnsignedDigits(i, point, f);
    NoExponentMark(u);
    assert u[..|u|] == u;
    ValueConcat(i, f);
    TimesOne(Magnitude(Decimal(false, i, f)));
  }

  lemma UnsignedDigits(i: string, point: bool, f: string)
    requires AllDigits(i) && i != [] && AllDigits(f)
    ensures var u := Assembled("", i, point, f);
      && Unsigned(u) == u && u != "Infinity"
      && forall k :: 0 <= k < |u| ==> IsDigit(u[k]) || u[k] == '.'
  {
    var u := Assembled("", i, point, f);
    assert u[0] == i[0];
  }

  lemma TimesOne(m: real)
    ensures Scaled(m, 0) == m
  {
  }

  /** `Number` reads a plain decimal text exactly. */
  lemma PlainNumber(sign: string, i: string, point: bool, f: string)
    requires sign in {"", "+", "-"} && AllDigits(i) && i != [] && AllDigits(f) && (!point ==> f == [])
    ensures JsNumber(Assembled(sign, i, point, f)) == Finite(Number(Decimal(sign == "-", i, f)))
  {
    hide Value, Pow10, RadixValue, RadixOf, UnsignedDecimal, Unsigned, Assembled, Magnitude;
    SignOfAssembled(sign, i, point, f);
    UnsignedDigits(i, point, f);
    PlainDigits(i, point, f);
    NotRadix(sign, i, point, f);
    SameMagnitude(sign == "-", i, f);
  }

  lemma SameMagnitude(negative: bool, i: string, f: string)
    requires AllDigits(i) && i != [] && AllDigits(f)
    ensures Magnitude(Decimal(negative, i, f)) == Magnitude(Decimal(false, i, f))
  {
  }

  lemma SignOfAssembled(sign: string, i: string, point: bool, f: string)
    requires sign in {"", "+", "-"} && AllDigits(i) && i != []
    ensures var t, u := Assembled(sign, i, point, f), Assembled("", i, point, f);
      Unsigned(t) == u && |u| <= |t| && t[..|t| - |u|] == sign
  {
    DigitsHaveNoComma(i);
    AssembledParts(sign, i, point, f);
  }

  lemma NotRadix(sign: string, i: string, point: bool, f: string)
    requires sign in {"", "+", "-"} && AllDigits(i) && i != [] && AllDigits(f)
    ensures var t := Assembled(sign, i, point, f); |t| > 2 && t[0] == '0' ==> RadixOf(t[1]).None?
  {
    var t := Assembled(sign, i, point, f);
    var u := i + (if point then "." + f else "");
    assert t == sign + u;
    assert |u| > 1 ==> u[1] == if |i| > 1 then i[1] else '.';
    assert sign != "" ==> t[0] == sign[0];
  }

  lemma {:induction false} MantissaHasNoComma(m: string)
    requires ',' in m
    ensures MantissaOf(m).None?
  {
    var k := Dot(m);
    var j :| 0 <= j < |m| && m[j] == ',';
    if j < k {
      assert m[..k][j] == ',';
    } else {
      assert m[k] == '.' && j > k;
      assert m[k + 1..][j - k - 1] == ',';
    }
  }

  lemma {:induction false} RadixHasNoComma(radix: nat, s: string)
    requires ',' in s && radix <= 16
    ensures RadixValue(radix, s).None?
  {
    if s[|s| - 1] != ',' {
      assert s == s[..|s| - 1] + [s[|s| - 1]];
      RadixHasNoComma(radix, s[..|s| - 1]);
    }
  }

  lemma ExponentHasNoComma(e: string)
    requires ',' in e
    ensures ExponentOf(e).None?
  {
    assert ',' in Unsigned(e);
  }

  lemma DecimalHasNoComma(u: string)
    requires ',' in u
    ensures UnsignedDecimal(u).None?
  {
    hide MantissaOf, ExponentOf, ExponentMark;
    var k := ExponentMark(u);
    MarkIsMark(u);
    var j :| 0 <= j < |u| && u[j] == ',';
    if j < k {
      assert u[..k][j] == ',';
      MantissaHasNoComma(u[..k]);
    } else {
      assert u[k + 1..][j - k - 1] == ',';
      ExponentHasNoComma(u[k + 1..]);
    }
  }

  /** `Number` reads no text that contains a comma. */
  lemma CommaIsNoNumber(t: string)
    requires ',' in t
    ensures JsNumber(t) == NotANumber
  {
    hide UnsignedDecimal, RadixValue;
    var u := Unsigned(t);
    assert ',' in u;
    if |t| > 2 && t[0] == '0' && RadixOf(t[1]).Some? {
      assert t == [t[0]] + [t[1]] + t[2..];
      RadixHasNoComma(RadixOf(t[1]).value, t[2..]);
    }
    DecimalHasNoComma(u);
  }

  lemma {:induction false} MarkIsMark(u: string)
    ensures ExponentMark(u) < |u| ==> u[ExponentMark(u)] == 'e' || u[ExponentMark(u)] == 'E'
  {
    if u != [] && u[0] != 'e' && u[0] != 'E' {
      MarkIsMark(u[1..]);
    }
  }

  /** The text is the grouping of a numeral of at least four digits, with an optional sign in
      front and an optional point and digits behind. */
  ghost predicate PrintedAs(text: string, sign: string, i: string, point: bool, f: string) {
    && sign in {"", "+", "-"} && Canonical(i) && |i| >= 4 && AllDigits(f) && (!point ==> f == [])
    && text == Assembled(sign, Group(i), point, f)
  }

  /** Every such text meets the grammar, with each sign, and with a point that no digit
      follows, and has a comma. */
  lemma PrintedIsGrouped(text: string, sign: string, i: string, point: bool, f: string)
    requires PrintedAs(text, sign, i, point, f)
    ensures IsGrouped(text) && ',' in text
  {
    hide Group, GroupFrom, IsGroups, Dot, Unsigned, RemoveCommas;
    GroupIsGroups(i);
    GroupStarts(i);
    AssembledParts(sign, Group(i), point, f);
  }

  lemma GroupStarts(i: string)
    requires Canonical(i) && |i| >= 4
    ensures '.' !in Group(i) && ',' in Group(i) && IsDigit(Group(i)[0])
  {
    GroupHasNoPoint(i, 0);
    GroupRight(i);
  }

  /** A text with commas is a number exactly when it is such a text, for some numeral and some
      fraction; the number is theirs. */
  lemma CommasOnlyAsPrinted(raw: string, text: string)
    requires text == Trim(Narrow(raw))
    ensures ',' in text && ReadNumberInput(raw).Entered? <==> exists sign, i, point, f :: PrintedAs(text, sign, i, point, f)
    ensures forall sign, i, point, f :: PrintedAs(text, sign, i, point, f) ==>
              ReadNumberInput(raw) == Entered(Number(Decimal(sign == "-", i, f)))
  {
    hide Narrow, Trim, JsNumber, IsGrouped, RemoveCommas, Assembled, Group;
    forall sign, i, point, f | PrintedAs(text, sign, i, point, f)
      ensures ReadNumberInput(raw) == Entered(Number(Decimal(sign == "-", i, f)))
    {
      PrintedIsGrouped(text, sign, i, point, f);
      RemovedAssembled(sign, i, point, f);
      PlainNumber(sign, i, point, f);
    }
    forall sign, i, point, f | PrintedAs(text, sign, i, point, f)
      ensures ',' in text
    {
      PrintedIsGrouped(text, sign, i, point, f);
    }
    if IsGrouped(text) {
      var sign, i, point, f := GroupedPieces(text);
    } else if ',' in text {
      CommaIsNoNumber(text);
    }
  }

  lemma GroupedPieces(t: string) returns (sign: string, i: string, point: bool, f: string)
    requires IsGrouped(t)
    ensures PrintedAs(t, sign, i, point, f)
  {
    hide Dot, IsGroups, Group, RemoveCommas;
    var u := Unsigned(t);
    var k := Dot(u);
    GroupsAreGrouped(u[..k]);
    sign, i, point, f := t[..|t| - |u|], RemoveCommas(u[..k]), k < |u|, if k < |u| then u[k + 1..] else [];
    assert u == Group(i) + (if point then "." + f else "");
    SignPiece(t);
  }

  lemma SignPiece(t: string)
    ensures var u := Unsigned(t); |u| <= |t| && t == t[..|t| - |u|] + u && t[..|t| - |u|] in {"", "+", "-"}
  {
    var u := Unsigned(t);
    if |u| < |t| {
      assert t[..|t| - |u|] == [t[0]];
    } else {
      assert t[..0] == [];
    }
  }

  lemma RemovedAssembled(sign: string, i: string, point: bool, f: string)
    requires sign in {"", "+", "-"} && Canonical(i) && |i| >= 4 && AllDigits(f)
    ensures RemoveCommas(Assembled(sign, Group(i), point, f)) == Assembled(sign, i, point, f)
  {
    var tail := if point then "." + f else "";
    GroupIsGroups(i);
    RemoveCommasConcat(sign, Group(i) + tail);
    RemoveCommasConcat(Group(i), tail);
    NothingToRemove(sign);
    DigitsHaveNoComma(f);
    NothingToRemove(tail);
  }

  // ---- White space and full-width characters ----

  /** A text without spaces in ASCII, each character as it is or in its full-width form. */
  predicate Widened(w: string, t: string) {
    |w| == |t|
    && forall k | 0 <= k < |t| :: 33 <= t[k] as int <= 126 && (w[k] == t[k] || w[k] as int == t[k] as int + 0xFEE0)
  }

  lemma NarrowConcat(a: string, b: string)
    ensures Narrow(a + b) == Narrow(a) + Narrow(b)
  {
  }

  lemma NarrowBlank(s: string)
    ensures |Narrow(s)| == |s| && forall k | 0 <= k < |s| :: IsSpace(Narrow(s)[k]) <==> Blank(s[k])
  {
  }

  lemma NarrowWide(w: string, t: string)
    requires Widened(w, t)
    ensures Narrow(w) == t && forall k | 0 <= k < |t| :: !IsSpace(t[k])
  {
  }

  /** Blanks around a text and full-width characters in it make no difference. */
  lemma NarrowedAndTrimmed(before: string, w: string, after: string, t: string)
    requires AllBlank(before) && AllBlank(after) && Widened(w, t) && t != []
    ensures Trim(Narrow(before + (w + after))) == t
  {
    hide Narrow, IsSpace, TrimStart, TrimEnd;
    NarrowConcat(before, w + after);
    NarrowConcat(w, after);
    NarrowBlank(before);
    NarrowBlank(after);
    NarrowWide(w, t);
    assert (t + Narrow(after))[0] == t[0];
    TrimFront(Narrow(before), t + Narrow(after));
    TrimBack(t, Narrow(after));
  }

  lemma {:induction false} SolidStays(s: string, k: nat)
    requires k < |s| && !IsSpace(s[k])
    ensures TrimStart(s) != [] && !IsSpace(TrimStart(s)[0])
  {
    if IsSpace(s[0]) {
      SolidStays(s[1..], k - 1);
    }
  }

  lemma {:induction false} SolidEndStays(s: string)
    requires s != [] && !IsSpace(s[0])
    ensures TrimEnd(s) != []
  {
    if IsSpace(s[|s| - 1]) {
      SolidEndStays(s[..|s| - 1]);
    }
  }

  /** An input field counts as not filled in exactly when there is nothing but blanks in it. */
  lemma MissingExactly(raw: string)
    ensures ReadNumberInput(raw) == Missing <==> AllBlank(raw)
  {
    hide Narrow, IsSpace, Blank, TrimStart, TrimEnd, JsNumber;
    var text := Narrow(raw);
    NarrowBlank(raw);
    if AllBlank(raw) {
      TrimFront(text, []);
      assert text + [] == text;
      TrimBack([], []);
      assert [] + [] == "";
    } else {
      var k :| 0 <= k < |raw| && !Blank(raw[k]);
      SolidStays(text, k);
      SolidEndStays(TrimStart(text));
    }
  }

  /** A plain decimal text of any length is entered as its number, with blanks around it and
      with any of its characters in full width. */
  lemma PlainIsEntered(before: string, w: string, after: string, sign: string, i: string, point: bool, f: string)
    requires AllBlank(before) && AllBlank(after) && Widened(w, Assembled(sign, i, point, f))
    requires sign in {"", "+", "-"} && AllDigits(i) && i != [] && AllDigits(f) && (!point ==> f == [])
    ensures ReadNumberInput(before + (w + after)) == Entered(Number(Decimal(sign == "-", i, f)))
  {
    hide Narrow, Trim, JsNumber, IsGrouped, Number, Widened, AllBlank;
    NotEmpty(sign, i, point, f);
    NarrowedAndTrimmed(before, w, after, Assembled(sign, i, point, f));
    PlainNumber(sign, i, point, f);
    NotGrouped(sign, i, point, f);
  }

  lemma NotEmpty(sign: string, i: string, point: bool, f: string)
    requires i != []
    ensures Assembled(sign, i, point, f) != []
  {
  }

  lemma NotGrouped(sign: string, i: string, point: bool, f: string)
    requires sign in {"", "+", "-"} && AllDigits(i) && i != [] && AllDigits(f) && (!point ==> f == [])
    ensures !IsGrouped(Assembled(sign, i, point, f))
  {
    hide Dot, Unsigned, Assembled;
    DigitsHaveNoComma(i);
    AssembledParts(sign, i, point, f);
  }

  // ---- Printing, then reading ----

  lemma NarrowKeeps(s: string)
    requires forall k :: 0 <= k < |s| ==> IsDigit(s[k]) || s[k] in {',', '.', '-', '+'}
    ensures Narrow(s) == s && (s != [] ==> Trim(s) == s)
  {
    assert forall k :: 0 <= k < |s| ==> Narrow(s)[k] == s[k];
  }

  /** The printed grouping of a displayed text. */
  lemma GroupedText(sign: string, i: string, f: string)
    requires sign in {"", "-"} && Canonical(i) && AllDigits(f)
    ensures var t := Assembled(sign, Group(i), f != [], f);
      && Narrow(t) == t && Trim(t) == t && t != []
      && (IsGrouped(t) <==> |i| >= 4)
  {
    GroupHasNoPoint(i, 0);
    var g := Group(i);
    var t := Assembled(sign, g, f != [], f);
    NarrowKeeps(t);
    AssembledParts(sign, g, f != [], f);
    if |i| >= 4 {
      GroupIsGroups(i);
    } else {
      GroupRight(i);
    }
  }

  lemma FormatGroupedParts(value: string, digits: nat) returns (sign: string, i: string, f: string)
    requires IsDecimal(Trim(value))
    ensures sign in {"", "-"} && Canonical(i) && AllDigits(f)
    ensures Formatted(value, digits).Ok? && Formatted(value, digits).value == Assembled(sign, i, f != [], f)
    ensures FormatGrouped(value, digits) == Ok(Assembled(sign, Group(i), f != [], f))
    ensures NumberOf(Formatted(value, digits).value) == Number(Decimal(sign == "-", i, f))
  {
    hide Formatted, Number, GroupText, Assembled;
    sign, i, f := FormattedParts(value, digits);
    GroupTextAssembled(sign, i, f);
  }

  lemma GroupTextAssembled(sign: string, i: string, f: string)
    requires sign in {"", "-"} && Canonical(i) && AllDigits(f)
    ensures GroupText(Assembled(sign, i, f != [], f)) == Assembled(sign, Group(i), f != [], f)
  {
    hide Dot, Group, AllDigits, Canonical;
    AssembledSplit(sign, i, f);
    var g := Group(i);
    var body := if f == [] then g else g + "." + f;
    AssembledBody(sign, g, f, body);
  }

  lemma AssembledBody(sign: string, g: string, f: string, body: string)
    requires sign in {"", "-"} && body == if f == [] then g else g + "." + f
    ensures Assembled(sign, g, f != [], f) == if sign == "-" then "-" + body else body
  {
    assert g + (if f != [] then "." + f else "") == body;
    assert "" + body == body;
  }

  lemma FormattedParts(value: string, digits: nat) returns (sign: string, i: string, f: string)
    requires IsDecimal(Trim(value))
    ensures sign in {"", "-"} && Canonical(i) && AllDigits(f)
    ensures Formatted(value, digits).Ok? && Formatted(value, digits).value == Assembled(sign, i, f != [], f)
    ensures NumberOf(Formatted(value, digits).value) == Number(Decimal(sign == "-", i, f))
  {
    hide Rounded, Value, Pow10, Shown, Number, Split, Trim, IsDecimal;
    var n := Rounded(NumberOf(value), digits);
    i, f := ShownParts(n < 0, if n < 0 then -n else n, digits);
    sign := if n < 0 then "-" else "";
    SplitJoin(sign, i, f);
    assert Join(sign, i, f) == Assembled(sign, i, f != [], f);
  }

  /** Taking an assembled text apart at its sign and its first point. */
  lemma AssembledSplit(sign: string, i: string, f: string)
    requires sign in {"", "-"} && Canonical(i) && AllDigits(f)
    ensures var s := Assembled(sign, i, f != [], f);
      var negative := s != [] && s[0] == '-';
      var u := if negative then s[1..] else s;
      && negative == (sign == "-") && Dot(u) == |i| && u[..|i|] == i
      && (f != [] ==> |i| < |u| && u[|i| + 1..] == f) && (f == [] ==> |u| == |i|)
  {
    DigitsHaveNoComma(i);
    AssembledParts(sign, i, f != [], f);
  }

  /** What the screen printed with separators, the input field reads as that number. */
  lemma ReadsWhatItPrints(value: string, digits: nat)
    requires IsDecimal(Trim(value))
    ensures FormatGrouped(value, digits).Ok?
    ensures ReadNumberInput(FormatGrouped(value, digits).value)
         == Entered(NumberOf(Formatted(value, digits).value))
  {
    hide Formatted, Value, Pow10, JsNumber, Number, NumberOf, IsGrouped;
    var sign, i, f := FormatGroupedParts(value, digits);
    GroupedText(sign, i, f);
    PlainNumber(sign, i, f != [], f);
    if |i| >= 4 {
      RemovedAssembled(sign, i, f != [], f);
    } else {
      GroupRight(i);
    }
  }
}
