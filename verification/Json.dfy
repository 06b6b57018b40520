/**
 JSON bodies as `json.loads` reads them: bytes, UTF-8, and the grammar of RFC 8259 with
 the string escapes of its section 7. Only the encoding UTF-8 is modelled.
 */
module Json {
  import opened Prelude

  type Byte = n: nat | n < 256
  /** A text as a sequence of code points. */
  type Text = seq<nat>

  const QUOTE: nat := 34
  const BACKSLASH: nat := 92

  function Ascii(s: string): (t: Text)
    ensures |t| == |s|
  {
    seq(|s|, i requires 0 <= i < |s| => s[i] as int)
  }

  /** Values as Python holds them: an object keeps each key once, in order of first use. */
  datatype Value =
    | Null
    | Bool(b: bool)
    | Num
    | Str(text: Text)
    | Arr(items: seq<Value>)
    | Obj(members: seq<(Text, Value)>)

  // ---- UTF-8 ----

  predicate Continuation(b: Byte) {
    0x80 <= b <= 0xBF
  }

  /** The length of the character that starts a byte sequence; 0 if none does. Lone
      surrogates are passed, as the decoder is asked to. */
  function Width(b: seq<Byte>): (n: nat)
    requires b != []
    ensures n <= |b| && n <= 4
    ensures n == 1 <==> b[0] < 0x80
  {
    if b[0] < 0x80 then 1
    else if 0xC2 <= b[0] <= 0xDF && |b| >= 2 && Continuation(b[1]) then 2
    else if 0xE0 <= b[0] <= 0xEF && |b| >= 3 && Continuation(b[1]) && Continuation(b[2])
            && (b[0] == 0xE0 ==> b[1] >= 0xA0) then 3
    else if 0xF0 <= b[0] <= 0xF4 && |b| >= 4 && Continuation(b[1]) && Continuation(b[2]) && Continuation(b[3])
            && (b[0] == 0xF0 ==> b[1] >= 0x90) && (b[0] == 0xF4 ==> b[1] <= 0x8F) then 4
    else 0
  }

  /** The code point of the character that starts a byte sequence. */
  function CodePoint(b: seq<Byte>): (c: nat)
    requires b != [] && Width(b) > 0
    ensures c < 0x80 <==> Width(b) == 1
    ensures Width(b) == 1 ==> c == b[0]
  {
    match Width(b)
    case 1 => b[0]
    case 2 => (b[0] as int - 0xC0) * 0x40 + (b[1] as int - 0x80)
    case 3 => (b[0] as int - 0xE0) * 0x1000 + (b[1] as int - 0x80) * 0x40 + (b[2] as int - 0x80)
    case _ => (b[0] as int - 0xF0) * 0x40000 + (b[1] as int - 0x80) * 0x1000 + (b[2] as int - 0x80) * 0x40 + (b[3] as int - 0x80)
  }

  function Utf8(b: seq<Byte>): Option<Text> {
    if b == [] then Some([])
    else if Width(b) == 0 then None
    else match Utf8(b[Width(b)..])
      case None => None
      case Some(rest) => Some([CodePoint(b)] + rest)
  }

  /** The encoding that `json.loads` detects in front of a body. */
  datatype Encoding = PlainUtf8 | Utf8WithMark | OtherEncoding

  predicate StartsWith(b: seq<Byte>, p: seq<Byte>) {
    |p| <= |b| && b[..|p|] == p
  }

  function DetectEncoding(b: seq<Byte>): Encoding {
    if StartsWith(b, [0, 0, 0xFE, 0xFF]) || StartsWith(b, [0xFF, 0xFE]) || StartsWith(b, [0xFE, 0xFF]) then OtherEncoding
    else if StartsWith(b, [0xEF, 0xBB, 0xBF]) then Utf8WithMark
    else if |b| >= 4 && (b[0] == 0 || b[1] == 0) then OtherEncoding
    else if |b| == 2 && (b[0] == 0 || b[1] == 0) then OtherEncoding
    else PlainUtf8
  }

  /** The text of a body in UTF-8, without the byte order mark. */
  function Decoded(b: seq<Byte>): Option<Text> {
    match DetectEncoding(b)
    case PlainUtf8 => Utf8(b)
    case Utf8WithMark => Utf8(b[3..])
    case OtherEncoding => None
  }

  // ---- Grammar ----

  predicate IsWhite(c: nat) {
    c == 32 || c == 9 || c == 10 || c == 13
  }

  function SkipWhite(s: Text, p: nat): (q: nat)
    requires p <= |s|
    ensures p <= q <= |s|
    decreases |s| - p
  {
    if p < |s| && IsWhite(s[p]) then SkipWhite(s, p + 1) else p
  }

  function HexDigit(c: nat): Option<nat> {
    if 48 <= c <= 57 then Some(c - 48)
    else if 97 <= c <= 102 then Some(c - 87)
    else if 65 <= c <= 70 then Some(c - 55)
    else None
  }

  /** Four hexadecimal digits at position p. */
  function Hex4(s: Text, p: nat): Option<nat> {
    if p + 4 > |s| then None
    else match (HexDigit(s[p]), HexDigit(s[p + 1]), HexDigit(s[p + 2]), HexDigit(s[p + 3]))
      case (Some(a), Some(b), Some(c), Some(d)) => Some(4096 * a + 256 * b + 16 * c + d)
      case _ => None
  }

  /** The character of a two-character escape. */
  function SimpleEscape(c: nat): Option<nat> {
    if c == QUOTE || c == BACKSLASH || c == 47 then Some(c)
    else if c == 98 then Some(8)
    else if c == 102 then Some(12)
    else if c == 110 then Some(10)
    else if c == 114 then Some(13)
    else if c == 116 then Some(9)
    else None
  }

  /** One character of a string literal: its code point and the position after it. */
  function Character(s: Text, p: nat): (r: Option<(nat, nat)>)
    requires p < |s|
    ensures r.Some? ==> p < r.value.1 <= |s|
  {
    if s[p] != BACKSLASH then
      if s[p] <= 0x1F then None else Some((s[p], p + 1))
    else if p + 1 >= |s| then None
    else if s[p + 1] != 117 then
      match SimpleEscape(s[p + 1])
      case Some(c) => Some((c, p + 2))
      case None => None
    else
      match Hex4(s, p + 2)
      case None => None
      case Some(high) =>
        if 0xD800 <= high <= 0xDBFF && p + 7 < |s| && s[p + 6] == BACKSLASH && s[p + 7] == 117 then
          match Hex4(s, p + 8)
          case None => None
          case Some(low) =>
            if 0xDC00 <= low <= 0xDFFF then Some((0x10000 + (high - 0xD800) * 0x400 + (low - 0xDC00), p + 12))
            else Some((high, p + 6))
        else Some((high, p + 6))
  }

  /** The content of a string literal from behind its opening quote. */
  function StringFrom(s: Text, p: nat): (r: Option<(Text, nat)>)
    requires p <= |s|
    ensures r.Some? ==> p < r.value.1 <= |s|
    decreases |s| - p
  {
    if p == |s| then None
    else if s[p] == QUOTE then Some(([], p + 1))
    else match Character(s, p)
      case None => None
      case Some((c, q)) =>
        match StringFrom(s, q)
        case None => None
        case Some((rest, end)) => Some(([c] + rest, end))
  }

  predicate LiteralAt(s: Text, p: nat, word: string) {
    p + |word| <= |s| && s[p..p + |word|] == Ascii(word)
  }

  function SkipDigits(s: Text, p: nat): (q: nat)
    requires p <= |s|
    ensures p <= q <= |s|
    decreases |s| - p
  {
    if p < |s| && 48 <= s[p] <= 57 then SkipDigits(s, p + 1) else p
  }

  /** The end of the number at p: sign, integer part, and whatever fraction and exponent
      follow completely. */
  function NumberEnd(s: Text, p: nat): (r: Option<nat>)
    requires p < |s|
    ensures r.Some? ==> p < r.value <= |s|
  {
    var i := if s[p] == 45 then p + 1 else p;
    if i >= |s| || !(48 <= s[i] <= 57) then None else
    var afterInt := if s[i] == 48 then i + 1 else SkipDigits(s, i + 1);
    var afterFrac :=
      if afterInt + 1 < |s| && s[afterInt] == 46 && 48 <= s[afterInt + 1] <= 57 then SkipDigits(s, afterInt + 1)
      else afterInt;
    if afterFrac < |s| && (s[afterFrac] == 101 || s[afterFrac] == 69) then
      var d := if afterFrac + 1 < |s| && (s[afterFrac + 1] == 43 || s[afterFrac + 1] == 45) then afterFrac + 2 else afterFrac + 1;
      if d < |s| && 48 <= s[d] <= 57 then Some(SkipDigits(s, d)) else Some(afterFrac)
    else Some(afterFrac)
  }

  /** A value without structure at p: a word or a number. */
  function ScalarAt(s: Text, p: nat): (r: Option<(Value, nat)>)
    requires p < |s|
    ensures r.Some? ==> p < r.value.1 <= |s| && (r.value.0.Null? || r.value.0.Bool? || r.value.0.Num?)
  {
    if LiteralAt(s, p, "null") then Some((Null, p + 4))
    else if LiteralAt(s, p, "true") then Some((Bool(true), p + 4))
    else if LiteralAt(s, p, "false") then Some((Bool(false), p + 5))
    else if LiteralAt(s, p, "NaN") then Some((Num, p + 3))
    else if LiteralAt(s, p, "Infinity") then Some((Num, p + 8))
    else if LiteralAt(s, p, "-Infinity") then Some((Num, p + 9))
    else match NumberEnd(s, p)
      case Some(q) => Some((Num, q))
      case None => None
  }

  /** Assigning a member: a key that is already there keeps its place and gets the new value. */
  function Put(members: seq<(Text, Value)>, key: Text, v: Value): seq<(Text, Value)> {
    if members == [] then [(key, v)]
    else if members[0].0 == key then [(key, v)] + members[1..]
    else [members[0]] + Put(members[1..], key, v)
  }

  /** The value at p, nested at most `depth` deep. */
  function ValueAt(s: Text, p: nat, depth: nat): (r: Option<(Value, nat)>)
    requires p <= |s|
    ensures r.Some? ==> p < r.value.1 <= |s|
    decreases |s| - p, 1
  {
    if p == |s| || depth == 0 then None
    else if s[p] == QUOTE then
      match StringFrom(s, p + 1)
      case None => None
      case Some((t, end)) => Some((Str(t), end))
    else if s[p] == 91 then
      var q := SkipWhite(s, p + 1);
      if q < |s| && s[q] == 93 then Some((Arr([]), q + 1))
      else ItemsAt(s, q, depth - 1, [])
    else if s[p] == 123 then
      var q := SkipWhite(s, p + 1);
      if q < |s| && s[q] == 125 then Some((Obj([]), q + 1))
      else MembersAt(s, q, depth - 1, [])
    else ScalarAt(s, p)
  }

  /** The items of an array from p on, after those already read. */
  function ItemsAt(s: Text, p: nat, depth: nat, done: seq<Value>): (r: Option<(Value, nat)>)
    requires p <= |s|
    ensures r.Some? ==> p < r.value.1 <= |s|
    decreases |s| - p, 2
  {
    match ValueAt(s, p, depth)
    case None => None
    case Some((v, end)) =>
      var q := SkipWhite(s, end);
      if q == |s| then None
      else if s[q] == 93 then Some((Arr(done + [v]), q + 1))
      else if s[q] == 44 then ItemsAt(s, SkipWhite(s, q + 1), depth, done + [v])
      else None
  }

  /** The members of an object from p on, after those already read. */
  function MembersAt(s: Text, p: nat, depth: nat, done: seq<(Text, Value)>): (r: Option<(Value, nat)>)
    requires p <= |s|
    ensures r.Some? ==> p < r.value.1 <= |s|
    decreases |s| - p, 2
  {
    if p == |s| || s[p] != QUOTE then None else
    match StringFrom(s, p + 1)
    case None => None
    case Some((key, afterKey)) =>
      var colon := SkipWhite(s, afterKey);
      if colon == |s| || s[colon] != 58 then None else
      match ValueAt(s, SkipWhite(s, colon + 1), depth)
      case None => None
      case Some((v, end)) =>
        var q := SkipWhite(s, end);
        if q == |s| then None
        else if s[q] == 125 then Some((Obj(Put(done, key, v)), q + 1))
        else if s[q] == 44 then MembersAt(s, SkipWhite(s, q + 1), depth, Put(done, key, v))
        else None
  }

  /** `json.loads`: a whole text that is one value. None is a text that does not parse, or
      one nested deeper than the parser follows. */
  function Loads(body: seq<Byte>, depth: nat): Option<Value> {
    match Decoded(body)
    case None => None
    case Some(s) =>
      match ValueAt(s, SkipWhite(s, 0), depth)
      case None => None
      case Some((v, end)) => if SkipWhite(s, end) == |s| then Some(v) else None
  }
}
