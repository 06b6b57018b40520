/**
 The byte search in front of the parser (src/cii_platform/api/nul_guard.py): a body
 without the six bytes of the NUL escape and without a raw NUL byte is not parsed at all.
 It never changes the answer.
 */
module NulFilter {
  import opened Prelude
  import opened Json
  import opened JsonForms
  import opened JsonBodies
  import opened NulGuard

  /** The six characters of the NUL escape. */
  const NUL_ESCAPE: seq<Byte> := [92, 117, 48, 48, 48, 48]

  predicate Occurs(s: Text, p: Text, k: nat) {
    k + |p| <= |s| && s[k..k + |p|] == p
  }

  predicate Contains(b: seq<Byte>, p: seq<Byte>) {
    exists k | 0 <= k <= |b| :: Occurs(b, p, k)
  }

  /** Parse and scan; a body that does not parse, or is nested too deep for the parser or
      for the scan, is left to the validator behind the guard. */
  function NulInBody(body: seq<Byte>, parserDepth: nat, scanDepth: nat): Option<Text> {
    match Loads(body, parserDepth)
    case None => None
    case Some(v) =>
      match FindNul(v, [], scanDepth)
      case Found(path) => Some(path)
      case _ => None
  }

  /** The guard's answer for a JSON body: the field to report, or None to let it pass. */
  function Guarded(body: seq<Byte>, parserDepth: nat, scanDepth: nat): Option<Text> {
    if Contains(body, NUL_ESCAPE) || 0 in body then NulInBody(body, parserDepth, scanDepth) else None
  }

  // ---- A NUL in a parsed text comes from the escape ----

  /** The NUL escape stands in s between from and to. */
  predicate EscapeBetween(s: Text, from: nat, to: nat) {
    exists k | from <= k <= to :: k + 6 <= to && Occurs(s, NUL_ESCAPE, k)
  }

  lemma Widen(s: Text, a: nat, b: nat, from: nat, to: nat)
    requires EscapeBetween(s, a, b) && from <= a && b <= to
    ensures EscapeBetween(s, from, to)
  {
  }

  lemma HexZero(s: Text, p: nat)
    requires Hex4(s, p) == Some(0)
    ensures p + 4 <= |s| && s[p..p + 4] == [48, 48, 48, 48]
  {
  }

  lemma NulCharacter(s: Text, p: nat)
    requires p < |s| && Character(s, p).Some? && Character(s, p).value.0 == 0
    ensures EscapeBetween(s, p, Character(s, p).value.1)
  {
    hide Hex4;
    HexZero(s, p + 2);
    assert s[p..p + 6] == [s[p], s[p + 1]] + s[p + 2..p + 6];
    assert Occurs(s, NUL_ESCAPE, p);
  }

  lemma {:induction false} NulString(s: Text, p: nat)
    requires p <= |s| && StringFrom(s, p).Some? && 0 in StringFrom(s, p).value.0
    ensures EscapeBetween(s, p, StringFrom(s, p).value.1)
    decreases |s| - p
  {
    var (c, q) := Character(s, p).value;
    var (rest, end) := StringFrom(s, q).value;
    if c == 0 {
      NulCharacter(s, p);
      Widen(s, p, q, p, end);
    } else {
      NulString(s, q);
      Widen(s, q, end, p, end);
    }
  }

  predicate ItemNul(items: seq<Value>) {
    exists k | 0 <= k < |items| :: HasNul(items[k])
  }

  predicate MemberNul(members: seq<(Text, Value)>) {
    exists k | 0 <= k < |members| :: 0 in members[k].0 || HasNul(members[k].1)
  }

  lemma {:induction false} PutNul(members: seq<(Text, Value)>, key: Text, v: Value)
    requires MemberNul(Put(members, key, v))
    ensures MemberNul(members) || 0 in key || HasNul(v)
  {
    var put := Put(members, key, v);
    var k :| 0 <= k < |put| && (0 in put[k].0 || HasNul(put[k].1));
    if members != [] && members[0].0 == key {
      assert k == 0 || put[k] == members[k];
    } else if members != [] && k > 0 {
      assert put[1..][k - 1] == put[k];
      PutNul(members[1..], key, v);
      if MemberNul(members[1..]) {
        var j :| 0 <= j < |members[1..]| && (0 in members[1..][j].0 || HasNul(members[1..][j].1));
        assert members[j + 1] == members[1..][j];
      }
    } else {
      assert members != [] ==> put[0] == members[0];
    }
  }

  /** A parsed value with a NUL was written with the NUL escape. */
  lemma {:induction false} NulValue(s: Text, p: nat, depth: nat)
    requires p <= |s| && ValueAt(s, p, depth).Some? && HasNul(ValueAt(s, p, depth).value.0)
    ensures EscapeBetween(s, p, ValueAt(s, p, depth).value.1)
    decreases |s| - p, 1
  {
    hide StringFrom, SkipWhite, ScalarAt, ItemsAt, MembersAt, EscapeBetween;
    var end := ValueAt(s, p, depth).value.1;
    if s[p] == QUOTE {
      NulString(s, p + 1);
      Widen(s, p + 1, end, p, end);
    } else if s[p] == 91 {
      var q := SkipWhite(s, p + 1);
      if s[q] != 93 {
        NulItems(s, q, depth - 1, []);
        Widen(s, q, end, p, end);
      }
    } else if s[p] == 123 {
      var q := SkipWhite(s, p + 1);
      if s[q] != 125 {
        NulMembers(s, q, depth - 1, []);
        Widen(s, q, end, p, end);
      }
    }
  }

  lemma {:induction false} NulItems(s: Text, p: nat, depth: nat, done: seq<Value>)
    requires p <= |s| && ItemsAt(s, p, depth, done).Some?
    requires HasNul(ItemsAt(s, p, depth, done).value.0) && !ItemNul(done)
    ensures EscapeBetween(s, p, ItemsAt(s, p, depth, done).value.1)
    decreases |s| - p, 2
  {
    hide ValueAt, SkipWhite, MembersAt;
    var (v, end) := ValueAt(s, p, depth).value;
    if HasNul(v) {
      NulValue(s, p, depth);
    } else {
      assert !ItemNul(done + [v]);
      var q := SkipWhite(s, end);
      if s[q] == 44 {
        NulItems(s, SkipWhite(s, q + 1), depth, done + [v]);
      }
    }
  }

  lemma {:induction false} NulMembers(s: Text, p: nat, depth: nat, done: seq<(Text, Value)>)
    requires p <= |s| && MembersAt(s, p, depth, done).Some?
    requires HasNul(MembersAt(s, p, depth, done).value.0) && !MemberNul(done)
    ensures EscapeBetween(s, p, MembersAt(s, p, depth, done).value.1)
    decreases |s| - p, 2
  {
    hide ValueAt, SkipWhite, StringFrom, ItemsAt, Put;
    var (key, afterKey) := StringFrom(s, p + 1).value;
    var at := SkipWhite(s, SkipWhite(s, afterKey) + 1);
    var (v, end) := ValueAt(s, at, depth).value;
    if 0 in key {
      NulString(s, p + 1);
    } else if HasNul(v) {
      NulValue(s, at, depth);
    } else {
      var now := Put(done, key, v);
      if MemberNul(now) {
        PutNul(done, key, v);
      }
      var q := SkipWhite(s, end);
      if s[q] == 44 {
        NulMembers(s, SkipWhite(s, q + 1), depth, now);
      }
    }
  }

  // ---- Ascii stretches of a text stand in its bytes ----

  lemma {:induction false} AsciiPrefix(b: seq<Byte>, n: nat)
    requires Utf8(b).Some? && n <= |Utf8(b).value|
    requires forall i | 0 <= i < n :: Utf8(b).value[i] < 0x80
    ensures n <= |b| && b[..n] == Utf8(b).value[..n]
  {
    hide CodePoint, Width;
    if n > 0 {
      var s := Utf8(b).value;
      assert s[0] == CodePoint(b) && Width(b) == 1;
      assert Utf8(b[1..]) == Some(s[1..]);
      AsciiPrefix(b[1..], n - 1);
      assert b[..n] == [b[0]] + b[1..][..n - 1];
      assert s[..n] == [s[0]] + s[1..][..n - 1];
    }
  }

  lemma {:induction false} AsciiRun(b: seq<Byte>, k: nat, p: seq<Byte>)
    requires Utf8(b).Some? && Occurs(Utf8(b).value, p, k)
    requires forall i | 0 <= i < |p| :: p[i] < 0x80
    ensures Contains(b, p)
    decreases k
  {
    hide CodePoint;
    var s := Utf8(b).value;
    if k == 0 {
      assert forall i | 0 <= i < |p| :: s[i] == s[0..|p|][i];
      AsciiPrefix(b, |p|);
      assert Occurs(b, p, 0);
    } else {
      var w := Width(b);
      assert Utf8(b[w..]) == Some(s[1..]);
      assert s[1..][k - 1..k - 1 + |p|] == s[k..k + |p|];
      AsciiRun(b[w..], k - 1, p);
      ContainsTail(b, w, p);
    }
  }

  lemma ContainsTail(b: seq<Byte>, w: nat, p: seq<Byte>)
    requires w <= |b| && Contains(b[w..], p)
    ensures Contains(b, p)
  {
    var j :| 0 <= j <= |b[w..]| && Occurs(b[w..], p, j);
    assert b[w..][j..j + |p|] == b[w + j..w + j + |p|];
    assert Occurs(b, p, w + j);
  }

  lemma EscapeInBytes(body: seq<Byte>, k: nat)
    requires Decoded(body).Some? && Occurs(Decoded(body).value, NUL_ESCAPE, k)
    ensures Contains(body, NUL_ESCAPE)
  {
    if DetectEncoding(body).PlainUtf8? {
      AsciiRun(body, k, NUL_ESCAPE);
    } else {
      AsciiRun(body[3..], k, NUL_ESCAPE);
      ContainsTail(body, 3, NUL_ESCAPE);
    }
  }

  lemma ReadNulNeedsEscape(body: seq<Byte>, depth: nat)
    requires Loads(body, depth).Some? && HasNul(Loads(body, depth).value)
    ensures Contains(body, NUL_ESCAPE)
  {
    var s := Decoded(body).value;
    var p := SkipWhite(s, 0);
    NulValue(s, p, depth);
    var k :| p <= k && Occurs(s, NUL_ESCAPE, k);
    EscapeInBytes(body, k);
  }

  /** However a value with a NUL is written, its bytes contain the six of the escape. */
  lemma NulNeedsEscape(d: Document)
    requires IsDocument(d) && HasNul(FormValue(d.form))
    ensures exists k | 0 <= k <= |DocumentBytes(d)| :: Occurs(DocumentBytes(d), [92, 117, 48, 48, 48, 48], k)
  {
    hide Loads, DocumentBytes, FormDepth, FormValue, HasNul, IsForm;
    LoadsDocument(d, FormDepth(d.form));
    ReadNulNeedsEscape(DocumentBytes(d), FormDepth(d.form));
  }

  /** The byte search changes no answer: the guard says what parsing and scanning every
      body would have said. */
  lemma FilterChangesNothing(body: seq<Byte>, parserDepth: nat, scanDepth: nat)
    ensures Guarded(body, parserDepth, scanDepth) == NulInBody(body, parserDepth, scanDepth)
  {
    if NulInBody(body, parserDepth, scanDepth).Some? {
      FoundIsReal(Loads(body, parserDepth).value, [], scanDepth);
      ReadNulNeedsEscape(body, parserDepth);
    }
  }

  // ---- Parsed values are dictionaries ----

  predicate UniqueKeys(members: seq<(Text, Value)>) {
    forall i, j | 0 <= i < j < |members| :: members[i].0 != members[j].0
  }

  lemma {:induction false} PutUnique(members: seq<(Text, Value)>, key: Text, v: Value)
    requires UniqueKeys(members)
    ensures UniqueKeys(Put(members, key, v))
    ensures forall m | m in Put(members, key, v) :: m == (key, v) || m in members
    ensures forall m | m in Put(members, key, v) :: m.0 == key ==> m == (key, v)
  {
    if members != [] && members[0].0 != key {
      PutUnique(members[1..], key, v);
      var put := Put(members, key, v);
      assert put[1..] == Put(members[1..], key, v);
      forall j | 1 <= j < |put|
        ensures put[0].0 != put[j].0
      {
        assert put[j] in put[1..];
        assert put[j] == (key, v) || put[j] in members[1..];
      }
      assert forall i, j | 1 <= i < j < |put| :: put[i] == put[1..][i - 1] && put[j] == put[1..][j - 1];
    } else if members != [] {
      var put := Put(members, key, v);
      assert forall j | 1 <= j < |put| :: put[j] == members[j];
    }
  }

  lemma {:induction false} ParsedDistinct(s: Text, p: nat, depth: nat)
    requires p <= |s| && ValueAt(s, p, depth).Some?
    ensures DistinctKeys(ValueAt(s, p, depth).value.0)
    decreases |s| - p, 1
  {
    hide StringFrom, SkipWhite, ScalarAt, ItemsAt, MembersAt;
    if s[p] == 91 {
      var q := SkipWhite(s, p + 1);
      if s[q] != 93 {
        ItemsDistinct(s, q, depth - 1, []);
      }
    } else if s[p] == 123 {
      var q := SkipWhite(s, p + 1);
      if s[q] != 125 {
        MembersDistinct(s, q, depth - 1, []);
      }
    }
  }

  lemma {:induction false} ItemsDistinct(s: Text, p: nat, depth: nat, done: seq<Value>)
    requires p <= |s| && ItemsAt(s, p, depth, done).Some?
    requires forall v | v in done :: DistinctKeys(v)
    ensures DistinctKeys(ItemsAt(s, p, depth, done).value.0)
    decreases |s| - p, 2
  {
    hide ValueAt, SkipWhite, MembersAt;
    var (v, end) := ValueAt(s, p, depth).value;
    ParsedDistinct(s, p, depth);
    var q := SkipWhite(s, end);
    if s[q] == 44 {
      ItemsDistinct(s, SkipWhite(s, q + 1), depth, done + [v]);
    }
  }

  lemma {:induction false} MembersDistinct(s: Text, p: nat, depth: nat, done: seq<(Text, Value)>)
    requires p <= |s| && MembersAt(s, p, depth, done).Some?
    requires UniqueKeys(done) && forall m | m in done :: DistinctKeys(m.1)
    ensures DistinctKeys(MembersAt(s, p, depth, done).value.0)
    decreases |s| - p, 2
  {
    hide ValueAt, SkipWhite, StringFrom, ItemsAt, Put;
    var (key, afterKey) := StringFrom(s, p + 1).value;
    var at := SkipWhite(s, SkipWhite(s, afterKey) + 1);
    var (v, end) := ValueAt(s, at, depth).value;
    ParsedDistinct(s, at, depth);
    PutUnique(done, key, v);
    var now := Put(done, key, v);
    assert forall m | m in now :: DistinctKeys(m.1);
    var q := SkipWhite(s, end);
    if s[q] == 44 {
      MembersDistinct(s, SkipWhite(s, q + 1), depth, now);
    } else {
      assert forall k | 0 <= k < |now| :: now[k] in now;
    }
  }

  /** The field is the written place of the first NUL of the value in document order. */
  ghost predicate NamesFirstNul(v: Value, limit: nat, field: Text) {
    exists p :: NulAt(v, p, limit) && field == Written(v, [], p) && forall q | NulAt(v, q, limit) :: Precedes(p, q)
  }

  /** The body spells a value in which a NUL within the scan's limit comes before every part
      that is too deep for the scan. */
  ghost predicate SpellsNul(body: seq<Byte>, parserDepth: nat, scanDepth: nat) {
    exists v :: Spells(body, parserDepth, v) && NulBeforeDeep(v, scanDepth)
  }

  /** A field is reported exactly for such a body, and it names the first NUL of what the body
      spells. */
  ghost predicate Answers(body: seq<Byte>, parserDepth: nat, scanDepth: nat, field: Option<Text>) {
    && (field.Some? <==> SpellsNul(body, parserDepth, scanDepth))
    && (field.Some? ==> forall v | Spells(body, parserDepth, v) :: NamesFirstNul(v, scanDepth, field.value))
  }

  /** Rejected are exactly the written forms of values with such a NUL, and the reported field
      is that of the first NUL in document order. */
  lemma RejectsExactly(body: seq<Byte>, parserDepth: nat, scanDepth: nat)
    ensures Answers(body, parserDepth, scanDepth, Guarded(body, parserDepth, scanDepth))
  {
    hide Guarded, Spells, FindNul, NulAt, Deep, Written, Precedes, Loads;
    var field := Guarded(body, parserDepth, scanDepth);
    FilterChangesNothing(body, parserDepth, scanDepth);
    forall v
      ensures Loads(body, parserDepth) == Some(v) <==> Spells(body, parserDepth, v)
    {
      LoadsExactly(body, parserDepth, v);
    }
    if Loads(body, parserDepth).Some? {
      var p := FindsExactlyAtLimit(Loads(body, parserDepth).value, [], scanDepth);
    }
  }

  /** A document that the parser follows is rejected exactly when it means a value with such a
      NUL; when the scan follows the value, too, that is any value with a NUL in some string or
      key. */
  lemma RejectsDocument(d: Document, parserDepth: nat, scanDepth: nat)
    requires IsDocument(d) && FormDepth(d.form) <= parserDepth
    ensures var v, field := FormValue(d.form), Guarded(DocumentBytes(d), parserDepth, scanDepth);
      && (field.Some? <==> NulBeforeDeep(v, scanDepth))
      && (field.Some? ==> NamesFirstNul(v, scanDepth, field.value))
      && (Depth(v) <= scanDepth ==> (field.Some? <==> HasNul(v)))
  {
    hide Guarded, DocumentBytes, FormDepth, FormValue, FindNul, NulAt, Deep, Written, Precedes, Loads, IsForm, HasNul, Depth;
    var v := FormValue(d.form);
    FilterChangesNothing(DocumentBytes(d), parserDepth, scanDepth);
    LoadsDocument(d, parserDepth);
    var p := FindsExactlyAtLimit(v, [], scanDepth);
    if Depth(v) <= scanDepth {
      FindsExactly(v, [], scanDepth);
    }
  }

  /** The reported field is an address in the value that the document means, written step by
      step; it is shorter than the limit, at which a string with a NUL or an object with one in a
      key stands. */
  lemma ReportedFieldIsAddress(d: Document, parserDepth: nat, scanDepth: nat)
      returns (address: Address, pieces: seq<Text>)
    requires IsDocument(d) && Guarded(DocumentBytes(d), parserDepth, scanDepth).Some? && FormDepth(d.form) <= parserDepth
    ensures |address| < scanDepth && At(FormValue(d.form), address).Some?
    ensures NulHere(At(FormValue(d.form), address).value)
    ensures Guarded(DocumentBytes(d), parserDepth, scanDepth) == Some(Glued(pieces)) && ArePieces(pieces, address)
  {
    hide ValueAt, FindNul, DocumentBytes, FormDepth, FormValue, IsForm, DistinctKeys, At, NulHere, Glued, ArePieces, Extend;
    var body := DocumentBytes(d);
    var s := Decoded(body).value;
    LoadsDocument(d, parserDepth);
    ParsedDistinct(s, SkipWhite(s, 0), parserDepth);
    address := FoundAddress(FormValue(d.form), [], scanDepth);
    EmptyPath();
    pieces := RenderIsGlued(address, [], [], []);
    assert [] + address == address;
  }

  // ---- A body whose NUL is missed ----

  /** `n` arrays around the NUL escape. */
  function NestedForm(n: nat): (f: Form)
    ensures IsForm(f) && FormDepth(f) == n + 1
  {
    if n == 0 then StringForm([Coded([48, 48, 48, 48])]) else List(LastItem([], NestedForm(n - 1), []))
  }

  lemma {:induction false} NestedMeans(n: nat)
    ensures FormValue(NestedForm(n)) == Wrapped(n, 0)
  {
    if n == 0 {
      var letters := [Coded([48, 48, 48, 48])];
      assert letters[1..] == [];
      assert LettersValue(letters) == [0];
    } else {
      NestedMeans(n - 1);
      var items := LastItem([], NestedForm(n - 1), []);
      assert ItemValues(items) == [Wrapped(n - 1, 0)];
    }
  }

  /** For every limit of the scan there is a document one level deeper, with a NUL in what it
      means, that the guard lets pass. */
  lemma DeepBodyPasses(parserDepth: nat, scanDepth: nat) returns (d: Document)
    requires parserDepth > scanDepth
    ensures IsDocument(d) && FormDepth(d.form) == scanDepth + 1 && HasNul(FormValue(d.form))
    ensures Guarded(DocumentBytes(d), parserDepth, scanDepth) == None
  {
    hide Guarded, DocumentBytes, FindNul, Loads;
    d := Document(false, [], NestedForm(scanDepth), []);
    NestedMeans(scanDepth);
    DeepNulIsMissed(scanDepth, []);
    LoadsDocument(d, parserDepth);
    FilterChangesNothing(DocumentBytes(d), parserDepth, scanDepth);
  }
}
