/**
 What `json.loads` reads of a body: exactly the documents - the written forms of values, as
 the bytes of UTF-8 - that are nested no deeper than it follows, to the value that they mean.
 */
module JsonBodies {
  import opened Prelude
  import opened Json
  import opened JsonForms
  import opened JsonReads
  import opened JsonAccepts

  // ---- UTF-8 there and back ----

  /** The groups of six bits of a number. */
  lemma Groups(c: nat)
    ensures c == c / 0x40 * 0x40 + c % 0x40
    ensures c / 0x40 == c / 0x1000 * 0x40 + c / 0x40 % 0x40
    ensures c / 0x1000 == c / 0x40000 * 0x40 + c / 0x1000 % 0x40
  {
  }

  lemma Quotient(c: nat, q: nat, r: nat)
    requires c == q * 0x40 + r && r < 0x40
    ensures c / 0x40 == q && c % 0x40 == r
  {
  }

  lemma Quotients(c: nat)
    ensures c / 0x1000 == c / 0x40 / 0x40 && c / 0x40000 == c / 0x40 / 0x40 / 0x40
  {
  }

  lemma FirstOf(c: nat, rest: seq<Byte>)
    requires c <= 0x10FFFF
    ensures var b := Encoded(c) + rest;
      && b != [] && |b| >= |Encoded(c)| && (forall i | 0 <= i < |Encoded(c)| :: b[i] == Encoded(c)[i])
  {
  }

  lemma DecodesOne(c: nat, rest: seq<Byte>)
    requires c <= 0x10FFFF
    ensures Width(Encoded(c) + rest) == |Encoded(c)| && CodePoint(Encoded(c) + rest) == c
  {
    var b := Encoded(c) + rest;
    FirstOf(c, rest);
    if c < 0x80 {
    } else if c < 0x800 {
      DecodesTwo(c, b);
    } else if c < 0x10000 {
      DecodesThree(c, b);
    } else {
      DecodesFour(c, b);
    }
  }

  lemma DecodesTwo(c: nat, b: seq<Byte>)
    requires 0x80 <= c < 0x800 && |b| >= 2 && b[0] == 0xC0 + c / 0x40 && b[1] == 0x80 + c % 0x40
    ensures Width(b) == 2 && CodePoint(b) == c
  {
    Groups(c);
  }

  lemma DecodesThree(c: nat, b: seq<Byte>)
    requires 0x800 <= c < 0x10000 && |b| >= 3
    requires b[0] == 0xE0 + c / 0x1000 && b[1] == 0x80 + c / 0x40 % 0x40 && b[2] == 0x80 + c % 0x40
    ensures Width(b) == 3 && CodePoint(b) == c
  {
    Groups(c);
  }

  lemma DecodesFour(c: nat, b: seq<Byte>)
    requires 0x10000 <= c <= 0x10FFFF && |b| >= 4
    requires b[0] == 0xF0 + c / 0x40000 && b[1] == 0x80 + c / 0x1000 % 0x40
    requires b[2] == 0x80 + c / 0x40 % 0x40 && b[3] == 0x80 + c % 0x40
    ensures Width(b) == 4 && CodePoint(b) == c
  {
    Groups(c);
  }

  lemma EncodesOne(b: seq<Byte>)
    requires b != [] && Width(b) > 0
    ensures CodePoint(b) <= 0x10FFFF && Encoded(CodePoint(b)) == b[..Width(b)]
  {
    var c := CodePoint(b);
    if Width(b) == 2 {
      EncodesTwo(c, b[0], b[1]);
    } else if Width(b) == 3 {
      EncodesThree(c, b[0], b[1], b[2]);
    } else if Width(b) == 4 {
      EncodesFour(c, b[0], b[1], b[2], b[3]);
    }
    hide Encoded;
  }

  lemma EncodesTwo(c: nat, b0: int, b1: int)
    requires 0xC2 <= b0 <= 0xDF && 0x80 <= b1 <= 0xBF
    requires c == (b0 - 0xC0) * 0x40 + (b1 - 0x80)
    ensures c <= 0x10FFFF && Encoded(c) == [b0, b1]
  {
    Quotient(c, b0 - 0xC0, b1 - 0x80);
  }

  lemma EncodesThree(c: nat, b0: int, b1: int, b2: int)
    requires 0xE0 <= b0 <= 0xEF && 0x80 <= b1 <= 0xBF && 0x80 <= b2 <= 0xBF && (b0 == 0xE0 ==> b1 >= 0xA0)
    requires c == (b0 - 0xE0) * 0x1000 + (b1 - 0x80) * 0x40 + (b2 - 0x80)
    ensures c <= 0x10FFFF && Encoded(c) == [b0, b1, b2]
  {
    Quotient(c, (b0 - 0xE0) * 0x40 + (b1 - 0x80), b2 - 0x80);
    Quotient(c / 0x40, b0 - 0xE0, b1 - 0x80);
    Quotients(c);
  }

  lemma EncodesFour(c: nat, b0: int, b1: int, b2: int, b3: int)
    requires 0xF0 <= b0 <= 0xF4 && 0x80 <= b1 <= 0xBF && 0x80 <= b2 <= 0xBF && 0x80 <= b3 <= 0xBF
    requires (b0 == 0xF0 ==> b1 >= 0x90) && (b0 == 0xF4 ==> b1 <= 0x8F)
    requires c == (b0 - 0xF0) * 0x40000 + (b1 - 0x80) * 0x1000 + (b2 - 0x80) * 0x40 + (b3 - 0x80)
    ensures c <= 0x10FFFF && Encoded(c) == [b0, b1, b2, b3]
  {
    Quotient(c, (b0 - 0xF0) * 0x1000 + (b1 - 0x80) * 0x40 + (b2 - 0x80), b3 - 0x80);
    Quotient(c / 0x40, (b0 - 0xF0) * 0x40 + (b1 - 0x80), b2 - 0x80);
    Quotient(c / 0x1000, b0 - 0xF0, b1 - 0x80);
    Quotients(c);
  }

  /** The bytes of a text are decoded to the text. */
  lemma {:induction false} Decodes(t: Text)
    requires CodePoints(t)
    ensures Utf8(Utf8Bytes(t)) == Some(t)
  {
    hide Encoded, Width, CodePoint;
    if t != [] {
      var first, rest := Encoded(t[0]), Utf8Bytes(t[1..]);
      var b := first + rest;
      Decodes(t[1..]);
      DecodesOne(t[0], rest);
      assert b[|first|..] == rest;
      assert t == [t[0]] + t[1..];
    }
  }

  /** Bytes that are decoded are the bytes of the text they are decoded to. */
  lemma {:induction false} Encodes(b: seq<Byte>)
    requires Utf8(b).Some?
    ensures CodePoints(Utf8(b).value) && Utf8Bytes(Utf8(b).value) == b
  {
    hide Encoded, Width, CodePoint;
    if b != [] {
      var w, t := Width(b), Utf8(b).value;
      Encodes(b[w..]);
      EncodesOne(b);
      assert t[1..] == Utf8(b[w..]).value;
      assert b == b[..w] + b[w..];
    }
  }

  // ---- The encoding of a document is detected ----

  lemma FirstByte(c: nat)
    requires 0 < c <= 0x10FFFF
    ensures (c < 0x80 ==> Encoded(c) == [c]) && 0 !in Encoded(c)
  {
  }

  lemma {:induction false} NoZeroByte(t: Text)
    requires NoNul(t)
    ensures 0 !in Utf8Bytes(t)
  {
    hide Encoded;
    if t != [] {
      FirstByte(t[0]);
      NoZeroByte(t[1..]);
    }
  }

  /** A text that begins in ASCII and holds no NUL is taken for plain UTF-8. */
  lemma DetectsPlain(t: Text)
    requires NoNul(t) && t != [] && t[0] < 0x80
    ensures DetectEncoding(Utf8Bytes(t)) == PlainUtf8
  {
    NoZeroByte(t);
    FirstByte(t[0]);
    assert Utf8Bytes(t)[0] == t[0];
    DetectsAscii(Utf8Bytes(t));
  }

  lemma DetectsAscii(b: seq<Byte>)
    requires b != [] && b[0] < 0x80 && 0 !in b
    ensures DetectEncoding(b) == PlainUtf8
  {
    forall p: seq<Byte> | StartsWith(b, p) && p != []
      ensures p[0] == b[0]
    {
      assert b[..|p|][0] == b[0];
    }
  }

  lemma DetectsMark(rest: seq<Byte>)
    ensures DetectEncoding([0xEF, 0xBB, 0xBF] + rest) == Utf8WithMark
    ensures ([0xEF, 0xBB, 0xBF] + rest)[3..] == rest
  {
    var b: seq<Byte> := [0xEF, 0xBB, 0xBF] + rest;
    assert b[..3] == [0xEF, 0xBB, 0xBF];
    assert b[0] == 0xEF;
    forall p: seq<Byte> | StartsWith(b, p) && p != []
      ensures p[0] == b[0]
    {
      assert b[..|p|][0] == b[0];
    }
  }

  // ---- Documents ----

  lemma DocumentParts(d: Document)
    requires IsDocument(d)
    ensures var t, p := DocumentText(d), |d.before|;
      Stands(t, d.before, 0) && Stands(t, FormText(d.form), p) && Stands(t, d.after, p + |FormText(d.form)|)
      && |t| == p + |FormText(d.form)| + |d.after|
  {
    hide FormText;
  }

  /** A text begins with white space or with its value. */
  lemma DocumentBegins(d: Document)
    requires IsDocument(d)
    ensures DocumentText(d) != [] && DocumentText(d)[0] < 0x80
  {
    var t := DocumentText(d);
    DocumentParts(d);
    FormBegins(t, |d.before|, d.form);
    hide FormText, IsForm;
    if d.before != [] {
      assert t[0] == d.before[0];
    }
  }

  lemma DocumentDecodes(d: Document)
    requires IsDocument(d)
    ensures Decoded(DocumentBytes(d)) == Some(DocumentText(d))
  {
    hide FormText, IsForm, DocumentText, Utf8Bytes, Utf8, DetectEncoding, NoNul, CodePoints;
    var t := DocumentText(d);
    DocumentNoNul(d);
    DocumentBegins(d);
    Decodes(t);
    DetectsPlain(t);
    DetectsMark(Utf8Bytes(t));
    NothingInFront(Utf8Bytes(t));
  }

  lemma EndOfText(s: Text, p: nat, white: Text)
    requires AllWhite(white) && Stands(s, white, p) && p + |white| == |s|
    ensures Ends(s, p) && SkipWhite(s, p) == |s|
  {
    SkipsWhite(s, white, p);
    if white != [] {
      StandsInside(s, white, p);
    }
  }

  /** A document no deeper than the reader follows is read as the value it means. */
  lemma LoadsDocument(d: Document, depth: nat)
    requires IsDocument(d) && FormDepth(d.form) <= depth
    ensures Loads(DocumentBytes(d), depth) == Some(FormValue(d.form))
  {
    hide FormText, IsForm, DocumentText, DocumentBytes, Decoded, ValueAt, SkipWhite, Stands, Ends, AllWhite, FormValue, FormDepth;
    var t, p := DocumentText(d), |d.before|;
    var end := p + |FormText(d.form)|;
    DocumentDecodes(d);
    DocumentParts(d);
    FormBegins(t, p, d.form);
    SkipsWhite(t, d.before, 0);
    EndOfText(t, end, d.after);
    ReadsForm(t, p, d.form, depth);
  }

  /** The bytes that are decoded to a text are those of the text, with or without a mark. */
  lemma DecodedBytes(body: seq<Byte>) returns (mark: bool)
    requires Decoded(body).Some?
    ensures CodePoints(Decoded(body).value)
    ensures body == (if mark then [0xEF, 0xBB, 0xBF] else []) + Utf8Bytes(Decoded(body).value)
  {
    mark := DetectEncoding(body).Utf8WithMark?;
    hide Utf8, Utf8Bytes;
    if mark {
      Encodes(body[3..]);
      assert body == body[..3] + body[3..];
    } else {
      Encodes(body);
      NothingInFront(body);
    }
  }

  /** A body that is read is a document that means the value. */
  lemma DocumentOf(body: seq<Byte>, depth: nat) returns (d: Document)
    requires Loads(body, depth).Some?
    ensures IsDocument(d) && DocumentBytes(d) == body
    ensures FormDepth(d.form) <= depth && FormValue(d.form) == Loads(body, depth).value
  {
    hide FormText, IsForm, Decoded, ValueAt, SkipWhite, AllWhite, FormValue, FormDepth, CodePoints, Utf8Bytes;
    var t := Decoded(body).value;
    var mark := DecodedBytes(body);
    var p := SkipWhite(t, 0);
    var form := FormOf(t, p, depth);
    var end := ValueAt(t, p, depth).value.1;
    SkippedWhite(t, 0);
    SkippedWhite(t, end);
    d := Document(mark, t[..p], form, t[end..]);
    assert t[end..|t|] == t[end..];
    assert DocumentText(d) == t;
  }

  predicate Means(d: Document, body: seq<Byte>, depth: nat, v: Value)
    requires IsDocument(d)
  {
    DocumentBytes(d) == body && FormDepth(d.form) <= depth && FormValue(d.form) == v
  }

  /** The body is a document that means the value and is nested no deeper than that. */
  ghost predicate Spells(body: seq<Byte>, depth: nat, v: Value) {
    exists d: Document | IsDocument(d) :: Means(d, body, depth, v)
  }

  /** `json.loads` gives a value exactly for the documents that mean it. */
  lemma LoadsExactly(body: seq<Byte>, depth: nat, v: Value)
    ensures Loads(body, depth) == Some(v) <==> Spells(body, depth, v)
  {
    hide Loads, IsForm, DocumentBytes, FormDepth, FormValue;
    if Loads(body, depth) == Some(v) {
      var d := DocumentOf(body, depth);
      assert Means(d, body, depth, v);
    }
    if Spells(body, depth, v) {
      var d: Document :| IsDocument(d) && Means(d, body, depth, v);
      LoadsDocument(d, depth);
    }
  }
}
