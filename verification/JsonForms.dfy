/**
 JSON texts as section 2 to 7 of RFC 8259 write them down, and the bytes of a text as RFC 3629
 encodes it - with what Python's reader adds: the words NaN, Infinity and -Infinity, surrogates
 on their own, and a byte order mark in front. It is what the reader in module Json is
 judged by: nothing here follows the reader.
 */
module JsonForms {
  import opened Prelude
  import opened Json

  // ---- Forms ----

  /** One character of a string: as it is, by a letter behind a backslash, by its code in
      hexadecimal digits, or by the codes of two surrogates. */
  datatype Letter =
    | Plain(c: nat)
    | Escaped(letter: nat)
    | Coded(hex: Text)
    | Paired(high: Text, low: Text)

  datatype Word = NullWord | TrueWord | FalseWord | NaNWord | InfinityWord | MinusInfinityWord

  datatype Exponent = Exponent(letter: nat, sign: Text, digits: Text)

  /** A written value. White space stands where the fields say. */
  datatype Form =
    | WordForm(word: Word)
    | NumberForm(minus: bool, whole: Text, fraction: Option<Text>, exponent: Option<Exponent>)
    | StringForm(letters: seq<Letter>)
    | EmptyList(white: Text)
    | List(items: Items)
    | EmptyObject(white: Text)
    | Object(members: Members)

  /** Values behind the opening bracket, up to the closing one. */
  datatype Items =
    | LastItem(before: Text, form: Form, after: Text)
    | NextItem(before: Text, form: Form, after: Text, rest: Items)

  datatype Members =
    | LastMember(before: Text, key: seq<Letter>, beforeColon: Text, afterColon: Text, form: Form, after: Text)
    | NextMember(before: Text, key: seq<Letter>, beforeColon: Text, afterColon: Text, form: Form, after: Text, rest: Members)

  // ---- Which forms are JSON ----

  predicate AllWhite(w: Text) {
    forall i | 0 <= i < |w| :: w[i] in {32, 9, 10, 13}
  }

  predicate Digit(c: nat) {
    48 <= c <= 57
  }

  predicate AreDigits(t: Text) {
    t != [] && forall i | 0 <= i < |t| :: Digit(t[i])
  }

  predicate Hex(c: nat) {
    48 <= c <= 57 || 65 <= c <= 70 || 97 <= c <= 102
  }

  predicate IsCode(hex: Text) {
    |hex| == 4 && Hex(hex[0]) && Hex(hex[1]) && Hex(hex[2]) && Hex(hex[3])
  }

  /** The value of a hexadecimal digit; capitals mean the same as small letters. */
  function HexValue(c: nat): (v: nat)
    requires Hex(c)
    ensures v < 16
  {
    if c <= 57 then c - 48 else if c <= 70 then c - 55 else c - 87
  }

  function CodeOf(hex: Text): (code: nat)
    requires IsCode(hex)
    ensures code <= 0xFFFF
  {
    HexValue(hex[0]) * 4096 + HexValue(hex[1]) * 256 + HexValue(hex[2]) * 16 + HexValue(hex[3])
  }

  predicate HighSurrogate(c: nat) {
    0xD800 <= c <= 0xDBFF
  }

  predicate LowSurrogate(c: nat) {
    0xDC00 <= c <= 0xDFFF
  }

  predicate IsLetter(l: Letter) {
    match l
    case Plain(c) => 0x20 <= c <= 0x10FFFF && c != 34 && c != 92
    case Escaped(letter) => letter in {34, 92, 47, 98, 102, 110, 114, 116}
    case Coded(hex) => IsCode(hex)
    case Paired(high, low) => IsCode(high) && IsCode(low) && HighSurrogate(CodeOf(high)) && LowSurrogate(CodeOf(low))
  }

  /** Two codes that together are a pair are not two characters. */
  predicate Splits(l: Letter, next: Letter)
    requires IsLetter(l) && IsLetter(next)
  {
    !(l.Coded? && next.Coded? && HighSurrogate(CodeOf(l.hex)) && LowSurrogate(CodeOf(next.hex)))
  }

  predicate AreLetters(letters: seq<Letter>) {
    && (forall i | 0 <= i < |letters| :: IsLetter(letters[i]))
    && (forall i | 0 <= i < |letters| - 1 :: Splits(letters[i], letters[i + 1]))
  }

  predicate IsNumber(whole: Text, fraction: Option<Text>, exponent: Option<Exponent>) {
    && AreDigits(whole) && (whole[0] == 48 ==> |whole| == 1)
    && (fraction.Some? ==> AreDigits(fraction.value))
    && (exponent.Some? ==>
          exponent.value.letter in {101, 69} && exponent.value.sign in {[], [43], [45]} && AreDigits(exponent.value.digits))
  }

  predicate IsForm(f: Form) {
    match f
    case WordForm(_) => true
    case NumberForm(_, whole, fraction, exponent) => IsNumber(whole, fraction, exponent)
    case StringForm(letters) => AreLetters(letters)
    case EmptyList(white) => AllWhite(white)
    case List(items) => AreItems(items)
    case EmptyObject(white) => AllWhite(white)
    case Object(members) => AreMembers(members)
  }

  predicate AreItems(items: Items) {
    && AllWhite(items.before) && IsForm(items.form) && AllWhite(items.after)
    && (items.NextItem? ==> AreItems(items.rest))
  }

  predicate AreMembers(members: Members) {
    && AllWhite(members.before) && AreLetters(members.key) && AllWhite(members.beforeColon)
    && AllWhite(members.afterColon) && IsForm(members.form) && AllWhite(members.after)
    && (members.NextMember? ==> AreMembers(members.rest))
  }

  // ---- How they are written ----

  function LetterText(l: Letter): Text {
    match l
    case Plain(c) => [c]
    case Escaped(letter) => [92, letter]
    case Coded(hex) => [92, 117] + hex
    case Paired(high, low) => [92, 117] + high + ([92, 117] + low)
  }

  /** The characters of a string, up to its closing quote. */
  function QuotedText(letters: seq<Letter>): Text {
    if letters == [] then [34] else LetterText(letters[0]) + QuotedText(letters[1..])
  }

  function WordText(w: Word): string {
    match w
    case NullWord => "null"
    case TrueWord => "true"
    case FalseWord => "false"
    case NaNWord => "NaN"
    case InfinityWord => "Infinity"
    case MinusInfinityWord => "-Infinity"
  }

  function FractionText(fraction: Option<Text>): Text {
    match fraction case None => [] case Some(digits) => [46] + digits
  }

  function ExponentText(exponent: Option<Exponent>): Text {
    match exponent case None => [] case Some(e) => [e.letter] + e.sign + e.digits
  }

  function NumberText(minus: bool, whole: Text, fraction: Option<Text>, exponent: Option<Exponent>): Text {
    (if minus then [45] else []) + (whole + (FractionText(fraction) + ExponentText(exponent)))
  }

  function FormText(f: Form): Text {
    match f
    case WordForm(w) => Ascii(WordText(w))
    case NumberForm(minus, whole, fraction, exponent) => NumberText(minus, whole, fraction, exponent)
    case StringForm(letters) => [34] + QuotedText(letters)
    case EmptyList(white) => [91] + (white + [93])
    case List(items) => [91] + ItemsText(items)
    case EmptyObject(white) => [123] + (white + [125])
    case Object(members) => [123] + MembersText(members)
  }

  function ItemsText(items: Items): Text {
    items.before + (FormText(items.form) + (items.after +
      match items case LastItem(_, _, _) => [93] case NextItem(_, _, _, rest) => [44] + ItemsText(rest)))
  }

  function MembersText(members: Members): Text {
    members.before + ([34] + (QuotedText(members.key) + (members.beforeColon + ([58] + (members.afterColon +
      (FormText(members.form) + (members.after +
        match members
        case LastMember(_, _, _, _, _, _) => [125]
        case NextMember(_, _, _, _, _, _, rest) => [44] + MembersText(rest))))))))
  }

  // ---- What they mean ----

  function LetterValue(l: Letter): nat
    requires IsLetter(l)
  {
    match l
    case Plain(c) => c
    case Escaped(letter) =>
      if letter == 98 then 8 else if letter == 102 then 12 else if letter == 110 then 10
      else if letter == 114 then 13 else if letter == 116 then 9 else letter
    case Coded(hex) => CodeOf(hex)
    case Paired(high, low) => 0x10000 + (CodeOf(high) - 0xD800) * 0x400 + (CodeOf(low) - 0xDC00)
  }

  function LettersValue(letters: seq<Letter>): Text
    requires forall i | 0 <= i < |letters| :: IsLetter(letters[i])
  {
    if letters == [] then [] else [LetterValue(letters[0])] + LettersValue(letters[1..])
  }

  function WordValue(w: Word): Value {
    match w
    case NullWord => Null
    case TrueWord => Bool(true)
    case FalseWord => Bool(false)
    case _ => Num
  }

  function FormValue(f: Form): Value
    requires IsForm(f)
  {
    match f
    case WordForm(w) => WordValue(w)
    case NumberForm(_, _, _, _) => Num
    case StringForm(letters) => Str(LettersValue(letters))
    case EmptyList(_) => Arr([])
    case List(items) => Arr(ItemValues(items))
    case EmptyObject(_) => Obj([])
    case Object(members) => Obj(Dict(MemberPairs(members)))
  }

  function ItemValues(items: Items): seq<Value>
    requires AreItems(items)
  {
    [FormValue(items.form)] + if items.NextItem? then ItemValues(items.rest) else []
  }

  function MemberPairs(members: Members): seq<(Text, Value)>
    requires AreMembers(members)
  {
    [(LettersValue(members.key), FormValue(members.form))] + if members.NextMember? then MemberPairs(members.rest) else []
  }

  /** The members of an object as a dictionary has them. */
  function Dict(pairs: seq<(Text, Value)>): seq<(Text, Value)> {
    if pairs == [] then [] else Put(Dict(pairs[..|pairs| - 1]), pairs[|pairs| - 1].0, pairs[|pairs| - 1].1)
  }

  /** The keys in the order in which they first come. */
  function FirstKeys(pairs: seq<(Text, Value)>): seq<Text> {
    if pairs == [] then [] else
    var keys, key := FirstKeys(pairs[..|pairs| - 1]), pairs[|pairs| - 1].0;
    if key in keys then keys else keys + [key]
  }

  /** How deep lists and objects are nested, counting the value itself. */
  function FormDepth(f: Form): (d: nat)
    ensures d >= 1
  {
    match f
    case List(items) => 1 + ItemsDepth(items)
    case Object(members) => 1 + MembersDepth(members)
    case _ => 1
  }

  function ItemsDepth(items: Items): (d: nat)
    ensures d >= 1
  {
    var d := FormDepth(items.form);
    if items.NextItem? && ItemsDepth(items.rest) > d then ItemsDepth(items.rest) else d
  }

  function MembersDepth(members: Members): (d: nat)
    ensures d >= 1
  {
    var d := FormDepth(members.form);
    if members.NextMember? && MembersDepth(members.rest) > d then MembersDepth(members.rest) else d
  }

  // ---- Bytes ----

  /** Only code points. */
  predicate CodePoints(s: Text) {
    forall i | 0 <= i < |s| :: s[i] <= 0x10FFFF
  }

  /** The bytes of a code point, as section 3 of RFC 3629 lays out its bits; a surrogate on its
      own has bytes, too. */
  function Encoded(c: nat): (b: seq<Byte>)
    requires c <= 0x10FFFF
    ensures b != []
  {
    if c < 0x80 then [c]
    else if c < 0x800 then [0xC0 + c / 0x40, 0x80 + c % 0x40]
    else if c < 0x10000 then [0xE0 + c / 0x1000, 0x80 + c / 0x40 % 0x40, 0x80 + c % 0x40]
    else [0xF0 + c / 0x40000, 0x80 + c / 0x1000 % 0x40, 0x80 + c / 0x40 % 0x40, 0x80 + c % 0x40]
  }

  function Utf8Bytes(t: Text): seq<Byte>
    requires CodePoints(t)
  {
    if t == [] then [] else Encoded(t[0]) + Utf8Bytes(t[1..])
  }

  /** A body: perhaps a byte order mark, and one value with white space around it. */
  datatype Document = Document(mark: bool, before: Text, form: Form, after: Text)

  predicate IsDocument(d: Document) {
    AllWhite(d.before) && IsForm(d.form) && AllWhite(d.after)
  }

  function DocumentText(d: Document): Text {
    d.before + (FormText(d.form) + d.after)
  }

  /** Every character is a code point and none is the NUL character. */
  predicate NoNul(t: Text) {
    forall i | 0 <= i < |t| :: 0 < t[i] <= 0x10FFFF
  }

  lemma ListUnfolds(items: Items)
    ensures IsForm(List(items)) <==> AreItems(items)
    ensures FormText(List(items)) == [91] + ItemsText(items) && FormDepth(List(items)) == 1 + ItemsDepth(items)
    ensures AreItems(items) ==> FormValue(List(items)) == Arr(ItemValues(items))
  {
  }

  lemma ObjectUnfolds(members: Members)
    ensures IsForm(Object(members)) <==> AreMembers(members)
    ensures FormText(Object(members)) == [123] + MembersText(members) && FormDepth(Object(members)) == 1 + MembersDepth(members)
    ensures AreMembers(members) ==> FormValue(Object(members)) == Obj(Dict(MemberPairs(members)))
  {
  }

  lemma ItemsUnfold(items: Items, tail: Text)
    requires tail == if items.LastItem? then [93] else [44] + ItemsText(items.rest)
    ensures ItemsText(items) == items.before + (FormText(items.form) + (items.after + tail))
  {
    hide FormText;
  }

  lemma MembersUnfold(members: Members, tail: Text)
    requires tail == if members.LastMember? then [125] else [44] + MembersText(members.rest)
    ensures var valueOn := members.afterColon + (FormText(members.form) + (members.after + tail));
      MembersText(members)
      == members.before + ([34] + (QuotedText(members.key) + (members.beforeColon + ([58] + valueOn))))
    ensures |MembersText(members)|
         == |members.before| + 1 + |QuotedText(members.key)| + |members.beforeColon| + 1 + |members.afterColon|
            + |FormText(members.form)| + |members.after| + |tail|
  {
    hide FormText, QuotedText;
  }

  lemma NoNulTogether(a: Text, b: Text)
    requires NoNul(a) && NoNul(b)
    ensures NoNul(a + b)
  {
  }

  lemma NoNulOne(c: nat)
    requires 0 < c <= 0x10FFFF
    ensures NoNul([c])
  {
  }

  lemma WhiteNoNul(w: Text)
    requires AllWhite(w)
    ensures NoNul(w)
  {
  }

  lemma LetterNoNul(l: Letter)
    requires IsLetter(l)
    ensures NoNul(LetterText(l))
  {
  }

  lemma {:induction false} QuotedNoNul(letters: seq<Letter>)
    requires AreLetters(letters)
    ensures NoNul(QuotedText(letters))
  {
    if letters != [] {
      var rest := letters[1..];
      assert forall i | 0 <= i < |rest| :: rest[i] == letters[i + 1];
      QuotedNoNul(rest);
      LetterNoNul(letters[0]);
    }
  }

  lemma NumberNoNul(minus: bool, whole: Text, fraction: Option<Text>, exponent: Option<Exponent>)
    requires IsNumber(whole, fraction, exponent)
    ensures NoNul(NumberText(minus, whole, fraction, exponent))
  {
    assert NoNul(FractionText(fraction)) && NoNul(ExponentText(exponent));
    hide FractionText, ExponentText;
  }

  lemma LeafNoNul(f: Form)
    requires IsForm(f) && !f.List? && !f.Object?
    ensures NoNul(FormText(f))
  {
    hide NumberText, QuotedText, IsNumber, AreLetters;
    match f
    case WordForm(w) =>
    case NumberForm(minus, whole, fraction, exponent) => NumberNoNul(minus, whole, fraction, exponent);
    case StringForm(letters) => QuotedNoNul(letters);
    case _ =>
  }

  /** No form is written with a NUL character. */
  lemma {:induction false} FormNoNul(f: Form)
    requires IsForm(f)
    ensures NoNul(FormText(f))
  {
    hide *;
    match f
    case List(items) =>
      ListUnfolds(items);
      ItemsNoNul(items);
      NoNulOne(91);
      NoNulTogether([91], ItemsText(items));
    case Object(members) =>
      ObjectUnfolds(members);
      MembersNoNul(members);
      NoNulOne(123);
      NoNulTogether([123], MembersText(members));
    case _ => LeafNoNul(f);
  }

  lemma {:induction false} ItemsNoNul(items: Items)
    requires AreItems(items)
    ensures NoNul(ItemsText(items))
  {
    hide FormText, ItemsText, MembersText, QuotedText, NoNul, AllWhite, IsForm, AreLetters;
    var tail: Text := if items.LastItem? then [93] else [44] + ItemsText(items.rest);
    ItemsUnfold(items, tail);
    NoNulOne(93);
    if items.NextItem? {
      ItemsNoNul(items.rest);
      NoNulOne(44);
      NoNulTogether([44], ItemsText(items.rest));
    }
    FormNoNul(items.form);
    ValueNoNul(items.before, FormText(items.form), items.after, tail);
  }

  lemma ValueNoNul(before: Text, form: Text, after: Text, tail: Text)
    requires AllWhite(before) && NoNul(form) && AllWhite(after) && NoNul(tail)
    ensures NoNul(before + (form + (after + tail)))
  {
    hide *;
    WhiteNoNul(before);
    WhiteNoNul(after);
    NoNulTogether(after, tail);
    NoNulTogether(form, after + tail);
    NoNulTogether(before, form + (after + tail));
  }

  lemma {:induction false} MembersNoNul(members: Members)
    requires AreMembers(members)
    ensures NoNul(MembersText(members))
  {
    hide FormText, ItemsText, MembersText, QuotedText, NoNul, AllWhite, IsForm, AreLetters;
    var tail: Text := if members.LastMember? then [125] else [44] + MembersText(members.rest);
    var valueOn := members.afterColon + (FormText(members.form) + (members.after + tail));
    MembersUnfold(members, tail);
    NoNulOne(125);
    if members.NextMember? {
      MembersNoNul(members.rest);
      NoNulOne(44);
      NoNulTogether([44], MembersText(members.rest));
    }
    FormNoNul(members.form);
    ValueNoNul(members.afterColon, FormText(members.form), members.after, tail);
    KeyNoNul(members.before, members.key, members.beforeColon, valueOn);
  }

  lemma KeyNoNul(before: Text, key: seq<Letter>, beforeColon: Text, rest: Text)
    requires AllWhite(before) && AreLetters(key) && AllWhite(beforeColon) && NoNul(rest)
    ensures NoNul(before + ([34] + (QuotedText(key) + (beforeColon + ([58] + rest)))))
  {
    hide *;
    WhiteNoNul(before);
    WhiteNoNul(beforeColon);
    QuotedNoNul(key);
    NoNulOne(34);
    NoNulOne(58);
    NoNulTogether([58], rest);
    NoNulTogether(beforeColon, [58] + rest);
    NoNulTogether(QuotedText(key), beforeColon + ([58] + rest));
    NoNulTogether([34], QuotedText(key) + (beforeColon + ([58] + rest)));
    NoNulTogether(before, [34] + (QuotedText(key) + (beforeColon + ([58] + rest))));
  }

  lemma NoNulIs(t: Text)
    requires NoNul(t)
    ensures CodePoints(t)
  {
  }

  lemma DocumentNoNul(d: Document)
    requires IsDocument(d)
    ensures NoNul(DocumentText(d)) && CodePoints(DocumentText(d))
  {
    hide *;
    DocumentUnfolds(d);
    FormNoNul(d.form);
    ValueNoNul(d.before, FormText(d.form), d.after, []);
    NoNulIs(DocumentText(d));
  }

  lemma DocumentUnfolds(d: Document)
    requires IsDocument(d)
    ensures DocumentText(d) == d.before + (FormText(d.form) + (d.after + []))
    ensures AllWhite(d.before) && IsForm(d.form) && AllWhite(d.after) && NoNul([])
  {
    assert d.after + [] == d.after;
  }

  /** The body. */
  function DocumentBytes(d: Document): seq<Byte>
    requires IsDocument(d)
  {
    DocumentNoNul(d);
    (if d.mark then [0xEF, 0xBB, 0xBF] else []) + Utf8Bytes(DocumentText(d))
  }

  // ---- Dictionaries ----

  lemma {:induction false} PutNew(dict: seq<(Text, Value)>, key: Text, v: Value)
    requires forall k | 0 <= k < |dict| :: dict[k].0 != key
    ensures Put(dict, key, v) == dict + [(key, v)]
  {
    if dict != [] {
      PutNew(dict[1..], key, v);
      assert dict == [dict[0]] + dict[1..];
    }
  }

  lemma {:induction false} PutOver(dict: seq<(Text, Value)>, key: Text, v: Value, k: nat)
    requires k < |dict| && dict[k].0 == key && forall j | 0 <= j < k :: dict[j].0 != key
    ensures Put(dict, key, v) == dict[k := (key, v)]
  {
    if k > 0 {
      PutOver(dict[1..], key, v, k - 1);
      assert dict == [dict[0]] + dict[1..];
    }
  }

  lemma PutIs(dict: seq<(Text, Value)>, key: Text, v: Value)
    requires forall i, j | 0 <= i < j < |dict| :: dict[i].0 != dict[j].0
    ensures (forall k | 0 <= k < |dict| :: dict[k].0 != key) ==> Put(dict, key, v) == dict + [(key, v)]
    ensures forall k | 0 <= k < |dict| && dict[k].0 == key :: Put(dict, key, v) == dict[k := (key, v)]
  {
    if forall k | 0 <= k < |dict| :: dict[k].0 != key {
      PutNew(dict, key, v);
    }
    forall k | 0 <= k < |dict| && dict[k].0 == key
      ensures Put(dict, key, v) == dict[k := (key, v)]
    {
      PutOver(dict, key, v, k);
    }
  }

  /** The pair stands in the list, and no later one has its key. */
  predicate LastGiven(pairs: seq<(Text, Value)>, pair: (Text, Value)) {
    exists i | 0 <= i < |pairs| :: pairs[i] == pair && forall j | i < j < |pairs| :: pairs[j].0 != pair.0
  }

  lemma {:induction false} DictKeys(pairs: seq<(Text, Value)>)
    ensures var dict, keys := Dict(pairs), FirstKeys(pairs);
      && |dict| == |keys| && (forall k | 0 <= k < |keys| :: dict[k].0 == keys[k])
      && (forall i, j | 0 <= i < j < |keys| :: keys[i] != keys[j])
  {
    if pairs != [] {
      var front, last := pairs[..|pairs| - 1], pairs[|pairs| - 1];
      var dict, keys := Dict(front), FirstKeys(front);
      DictKeys(front);
      PutIs(dict, last.0, last.1);
      hide Put, Dict, FirstKeys;
      if last.0 in keys {
        var k :| 0 <= k < |keys| && keys[k] == last.0;
        assert dict[k].0 == last.0;
      }
    }
  }

  lemma {:induction false} DictValues(pairs: seq<(Text, Value)>)
    ensures forall pair | pair in Dict(pairs) :: LastGiven(pairs, pair)
  {
    if pairs != [] {
      var front, last := pairs[..|pairs| - 1], pairs[|pairs| - 1];
      var dict := Dict(front);
      DictValues(front);
      DictKeys(front);
      PutIs(dict, last.0, last.1);
      assert pairs == front + [last];
      forall pair | pair in Dict(pairs)
        ensures LastGiven(pairs, pair)
      {
        if exists k :: 0 <= k < |dict| && dict[k].0 == last.0 {
          var k :| 0 <= k < |dict| && dict[k].0 == last.0;
          var m :| 0 <= m < |dict| && dict[k := last][m] == pair;
          assert m != k ==> pair in dict;
        }
        NextPair(front, last, pair);
      }
    }
  }

  lemma NextPair(front: seq<(Text, Value)>, last: (Text, Value), pair: (Text, Value))
    requires pair == last || (LastGiven(front, pair) && pair.0 != last.0)
    ensures LastGiven(front + [last], pair)
  {
    var pairs := front + [last];
    if pair == last {
      assert pairs[|front|] == pair;
    } else {
      var i :| 0 <= i < |front| && front[i] == pair && forall j | i < j < |front| :: front[j].0 != pair.0;
      assert pairs[i] == pair;
    }
  }

  /** A dictionary has each key once, in the order of first use, with the value given last. */
  lemma DictIs(pairs: seq<(Text, Value)>)
    ensures var dict, keys := Dict(pairs), FirstKeys(pairs);
      && |dict| == |keys| && (forall k | 0 <= k < |keys| :: dict[k].0 == keys[k])
      && (forall i, j | 0 <= i < j < |keys| :: keys[i] != keys[j])
      && (forall pair | pair in dict :: LastGiven(pairs, pair))
  {
    DictKeys(pairs);
    DictValues(pairs);
  }
}
