/** Whatever the reader of module Json reads is a written form of the value it gives. */
module JsonAccepts {
  import opened Prelude
  import opened Json
  import opened JsonForms
  import opened JsonReads

  lemma Cut(s: Text, p: nat, q: nat, r: nat)
    requires p <= q <= r <= |s|
    ensures s[p..r] == s[p..q] + s[q..r]
  {
  }

  lemma CutOne(s: Text, p: nat, r: nat)
    requires p < r <= |s|
    ensures s[p..r] == [s[p]] + s[p + 1..r]
  {
  }

  lemma SliceStands(s: Text, p: nat, q: nat)
    requires p <= q <= |s|
    ensures Stands(s, s[p..q], p)
  {
  }

  lemma {:induction false} SkippedWhite(s: Text, p: nat)
    requires p <= |s|
    ensures AllWhite(s[p..SkipWhite(s, p)])
    decreases |s| - p
  {
    if p < |s| && IsWhite(s[p]) {
      SkippedWhite(s, p + 1);
      CutOne(s, p, SkipWhite(s, p));
    }
  }

  lemma {:induction false} SkippedDigits(s: Text, p: nat)
    requires p <= |s|
    ensures forall k | p <= k < SkipDigits(s, p) :: Digit(s[k])
    decreases |s| - p
  {
    if p < |s| && Digit(s[p]) {
      SkippedDigits(s, p + 1);
    }
  }

  // ---- Strings ----

  lemma HexOf(s: Text, p: nat)
    requires Hex4(s, p).Some?
    ensures p + 4 <= |s| && IsCode(s[p..p + 4]) && CodeOf(s[p..p + 4]) == Hex4(s, p).value
  {
    hide HexDigit, Hex, HexValue;
    HexIs(s[p]);
    HexIs(s[p + 1]);
    HexIs(s[p + 2]);
    HexIs(s[p + 3]);
  }

  lemma EscapeOf(letter: nat)
    requires SimpleEscape(letter).Some?
    ensures IsLetter(Escaped(letter)) && LetterValue(Escaped(letter)) == SimpleEscape(letter).value
  {
  }

  /** The letter that a character was read from. */
  lemma LetterOf(s: Text, p: nat) returns (l: Letter)
    requires CodePoints(s) && p < |s| && s[p] != 34 && Character(s, p).Some?
    ensures var (c, q) := Character(s, p).value;
      IsLetter(l) && LetterText(l) == s[p..q] && LetterValue(l) == c
    ensures l.Coded? ==>
      Character(s, p) == Some((CodeOf(l.hex), p + 6)) && s[p] == 92 && s[p + 1] == 117 && Hex4(s, p + 2) == Some(CodeOf(l.hex))
  {
    hide Hex4, CodeOf, SimpleEscape;
    if s[p] != 92 {
      l := Plain(s[p]);
      assert s[p..p + 1] == [s[p]];
    } else if s[p + 1] != 117 {
      l := Escaped(s[p + 1]);
      EscapeOf(s[p + 1]);
      assert s[p..p + 2] == [s[p], s[p + 1]];
    } else {
      HexOf(s, p + 2);
      var hex := s[p + 2..p + 6];
      assert s[p..p + 6] == [92, 117] + hex;
      if Character(s, p).value.1 == p + 6 {
        l := Coded(hex);
      } else {
        HexOf(s, p + 8);
        var low := s[p + 8..p + 12];
        l := Paired(hex, low);
        assert s[p + 6..p + 12] == [92, 117] + low;
        Cut(s, p, p + 6, p + 12);
      }
    }
  }

  /** The reader does not split a pair. */
  lemma NotSplit(s: Text, p: nat, l: Letter, next: Letter)
    requires p < |s| && IsLetter(l) && IsLetter(next)
    requires l.Coded? ==>
      Character(s, p) == Some((CodeOf(l.hex), p + 6)) && s[p] == 92 && s[p + 1] == 117 && Hex4(s, p + 2) == Some(CodeOf(l.hex))
    requires l.Coded? ==> Begins(s, p + 6, next)
    ensures Splits(l, next)
  {
    hide Hex4, CodeOf;
  }

  lemma {:induction false} LettersOf(s: Text, p: nat) returns (letters: seq<Letter>)
    requires CodePoints(s) && p <= |s| && StringFrom(s, p).Some?
    ensures var (text, end) := StringFrom(s, p).value;
      AreLetters(letters) && QuotedText(letters) == s[p..end] && LettersValue(letters) == text
    decreases |s| - p
  {
    hide CodePoints, Character, LetterText, LetterValue, Splits, IsLetter;
    var (text, end) := StringFrom(s, p).value;
    if s[p] == 34 {
      letters := [];
      assert s[p..p + 1] == [34];
    } else {
      var l := LetterOf(s, p);
      var q := Character(s, p).value.1;
      var rest := LettersOf(s, q);
      letters := [l] + rest;
      Cut(s, p, q, end);
      if rest != [] {
        SliceStands(s, q, end);
        QuotedBegins(s, q, rest);
        NotSplit(s, p, l, rest[0]);
      }
      assert letters[1..] == rest;
      AreMore(l, rest);
    }
  }

  lemma AreMore(l: Letter, rest: seq<Letter>)
    requires IsLetter(l) && AreLetters(rest) && (rest != [] ==> Splits(l, rest[0]))
    ensures AreLetters([l] + rest)
  {
    hide IsLetter, Splits;
    var letters := [l] + rest;
    forall i | 0 <= i < |letters|
      ensures IsLetter(letters[i])
    {
      assert i > 0 ==> letters[i] == rest[i - 1];
    }
    forall i | 0 <= i < |letters| - 1
      ensures Splits(letters[i], letters[i + 1])
    {
      assert letters[i + 1] == rest[i];
      assert i > 0 ==> letters[i] == rest[i - 1] && Splits(rest[i - 1], rest[i]);
    }
  }

  // ---- Words and numbers ----

  lemma DigitsSlice(s: Text, p: nat, q: nat)
    requires p < q <= |s| && forall k | p <= k < q :: Digit(s[k])
    ensures AreDigits(s[p..q])
  {
  }

  lemma FractionOf(s: Text, p: nat) returns (fraction: Option<Text>)
    requires p <= |s|
    ensures fraction.Some? ==> AreDigits(fraction.value)
    ensures FractionText(fraction) == s[p..FractionEnd(s, p)]
  {
    var q := FractionEnd(s, p);
    if q == p {
      fraction := None;
    } else {
      SkippedDigits(s, p + 1);
      DigitsSlice(s, p + 1, q);
      CutOne(s, p, q);
      fraction := Some(s[p + 1..q]);
    }
  }

  lemma ExponentOf(s: Text, p: nat) returns (exponent: Option<Exponent>)
    requires p <= |s|
    ensures p <= ExponentEnd(s, p) <= |s|
    ensures exponent.Some? ==>
      exponent.value.letter in {101, 69} && exponent.value.sign in {[], [43], [45]} && AreDigits(exponent.value.digits)
    ensures ExponentText(exponent) == s[p..ExponentEnd(s, p)]
  {
    var q := ExponentEnd(s, p);
    if q == p {
      exponent := None;
    } else {
      var d := if p + 1 < |s| && (s[p + 1] == 43 || s[p + 1] == 45) then p + 2 else p + 1;
      SkippedDigits(s, d);
      DigitsSlice(s, d, q);
      Cut(s, p, d, q);
      CutOne(s, p, d);
      if d == p + 2 {
        CutOne(s, p + 1, d);
        assert s[d..d] == [];
        assert s[p + 1..d] == [s[p + 1]];
      } else {
        assert s[p + 1..d] == [];
      }
      exponent := Some(Exponent(s[p], s[p + 1..d], s[d..q]));
      assert [s[p]] + s[p + 1..d] + s[d..q] == s[p..q];
    }
  }

  lemma WholeOf(s: Text, i: nat, q: nat)
    requires i < |s| && Digit(s[i]) && q == if s[i] == 48 then i + 1 else SkipDigits(s, i + 1)
    ensures i < q <= |s| && AreDigits(s[i..q]) && (s[i..q][0] == 48 ==> q == i + 1)
  {
    SkippedDigits(s, i + 1);
    DigitsSlice(s, i, q);
  }

  lemma NumberOf(s: Text, p: nat) returns (f: Form)
    requires p < |s| && NumberEnd(s, p).Some?
    ensures f.NumberForm? && IsForm(f) && FormText(f) == s[p..NumberEnd(s, p).value]
  {
    var minus := s[p] == 45;
    var i := if minus then p + 1 else p;
    assert i < |s| && Digit(s[i]);
    var afterInt := if s[i] == 48 then i + 1 else SkipDigits(s, i + 1);
    NumberEndIs(s, p, i, afterInt);
    WholeOf(s, i, afterInt);
    hide NumberEnd, SkipDigits, FractionEnd, ExponentEnd, AreDigits, FractionText, ExponentText;
    var afterFraction := FractionEnd(s, afterInt);
    var end := ExponentEnd(s, afterFraction);
    var whole := s[i..afterInt];
    var fraction := FractionOf(s, afterInt);
    var exponent := ExponentOf(s, afterFraction);
    f := NumberForm(minus, whole, fraction, exponent);
    Cut(s, i, afterInt, end);
    Cut(s, afterInt, afterFraction, end);
    if minus {
      CutOne(s, p, end);
    } else {
      NothingInFront(s[p..end]);
    }
  }

  lemma ScalarOf(s: Text, p: nat) returns (f: Form)
    requires p < |s| && ScalarAt(s, p).Some?
    ensures var (v, end) := ScalarAt(s, p).value;
      IsForm(f) && FormText(f) == s[p..end] && FormValue(f) == v && FormDepth(f) == 1
  {
    hide NumberEnd, Ascii, NumberText;
    if LiteralAt(s, p, "null") {
      f := WordForm(NullWord);
    } else if LiteralAt(s, p, "true") {
      f := WordForm(TrueWord);
    } else if LiteralAt(s, p, "false") {
      f := WordForm(FalseWord);
    } else if LiteralAt(s, p, "NaN") {
      f := WordForm(NaNWord);
    } else if LiteralAt(s, p, "Infinity") {
      f := WordForm(InfinityWord);
    } else if LiteralAt(s, p, "-Infinity") {
      f := WordForm(MinusInfinityWord);
    } else {
      f := NumberOf(s, p);
    }
  }

  // ---- Lists and objects ----

  /** The same with white space in front. */
  function WithWhite(items: Items, white: Text): Items {
    items.(before := white)
  }

  lemma WhiteInFront(items: Items, white: Text)
    requires AreItems(items) && items.before == [] && AllWhite(white)
    ensures var more := WithWhite(items, white);
      AreItems(more) && ItemsText(more) == white + ItemsText(items) && ItemValues(more) == ItemValues(items)
      && ItemsDepth(more) == ItemsDepth(items)
  {
    hide FormText, FormValue, FormDepth;
    var more := WithWhite(items, white);
    var tail: Text := items.after + if items.LastItem? then [93] else [44] + ItemsText(items.rest);
    assert ItemsText(items) == [] + (FormText(items.form) + tail);
    NothingInFront(FormText(items.form) + tail);
  }

  /** The last item, behind the white space in front of it. */
  lemma LastOf(s: Text, p: nat, end: nat, q: nat, form: Form) returns (items: Items)
    requires p <= end <= q < |s| && IsForm(form) && FormText(form) == s[p..end] && AllWhite(s[end..q]) && s[q] == 93
    ensures AreItems(items) && items.before == [] && ItemsText(items) == s[p..q + 1]
    ensures ItemValues(items) == [FormValue(form)] && ItemsDepth(items) == FormDepth(form)
  {
    items := LastItem([], form, s[end..q]);
    hide FormText, FormValue, FormDepth;
    Cut(s, p, end, q + 1);
    Cut(s, end, q, q + 1);
    assert s[q..q + 1] == [93];
    NothingInFront(s[p..q + 1]);
    assert [FormValue(form)] + [] == [FormValue(form)];
  }

  lemma NextOf(s: Text, p: nat, end: nat, q: nat, r: nat, form: Form, rest0: Items) returns (items: Items)
    requires p <= end <= q < |s| && IsForm(form) && FormText(form) == s[p..end] && AllWhite(s[end..q]) && s[q] == 44
    requires q + 1 <= r <= |s| && AreItems(rest0) && ItemsText(rest0) == s[q + 1..r]
    ensures AreItems(items) && items.before == [] && ItemsText(items) == s[p..r]
    ensures ItemValues(items) == [FormValue(form)] + ItemValues(rest0)
    ensures ItemsDepth(items) == if ItemsDepth(rest0) > FormDepth(form) then ItemsDepth(rest0) else FormDepth(form)
  {
    items := NextItem([], form, s[end..q], rest0);
    hide FormText, FormValue, FormDepth;
    assert ItemsText(items) == [] + (s[p..end] + (s[end..q] + ([44] + s[q + 1..r])));
    CutOne(s, q, r);
    Cut(s, end, q, r);
    Cut(s, p, end, r);
    NothingInFront(s[p..r]);
  }

  function MembersWithWhite(members: Members, white: Text): Members {
    members.(before := white)
  }

  lemma WhiteInFrontOfMembers(members: Members, white: Text)
    requires AreMembers(members) && members.before == [] && AllWhite(white)
    ensures var more := MembersWithWhite(members, white);
      AreMembers(more) && MembersText(more) == white + MembersText(members) && MemberPairs(more) == MemberPairs(members)
      && MembersDepth(more) == MembersDepth(members)
  {
    hide FormText, FormValue, FormDepth, QuotedText, LettersValue, AreLetters;
    var tail: Text := if members.LastMember? then [125] else [44] + MembersText(members.rest);
    MembersUnfold(members, tail);
    MembersUnfold(MembersWithWhite(members, white), tail);
    var rest := [34] + (QuotedText(members.key) + (members.beforeColon + ([58] +
      (members.afterColon + (FormText(members.form) + (members.after + tail))))));
    NothingInFront(rest);
  }

  /** The pieces of a text that is a member: quote and key, colon, value, and what follows. */
  lemma MemberCuts(s: Text, p: nat, afterKey: nat, colon: nat, at: nat, end: nat, q: nat, r: nat)
    requires p < afterKey <= colon < at <= end <= q <= r <= |s| && s[p] == 34 && s[colon] == 58
    ensures s[p..r]
         == [34] + (s[p + 1..afterKey] + (s[afterKey..colon] + ([58] +
              (s[colon + 1..at] + (s[at..end] + (s[end..q] + s[q..r]))))))
  {
    Cut(s, end, q, r);
    Cut(s, at, end, r);
    Cut(s, colon + 1, at, r);
    CutOne(s, colon, r);
    Cut(s, afterKey, colon, r);
    Cut(s, p + 1, afterKey, r);
    CutOne(s, p, r);
  }

  lemma LastMemberOf(s: Text, p: nat, afterKey: nat, colon: nat, at: nat, end: nat, q: nat, key: seq<Letter>, form: Form)
      returns (members: Members)
    requires p < afterKey <= colon < at <= end <= q < |s| && s[p] == 34 && s[colon] == 58 && s[q] == 125
    requires AreLetters(key) && QuotedText(key) == s[p + 1..afterKey] && IsForm(form) && FormText(form) == s[at..end]
    requires AllWhite(s[afterKey..colon]) && AllWhite(s[colon + 1..at]) && AllWhite(s[end..q])
    ensures AreMembers(members) && members.before == [] && MembersText(members) == s[p..q + 1]
    ensures MemberPairs(members) == [(LettersValue(key), FormValue(form))] && MembersDepth(members) == FormDepth(form)
  {
    hide *;
    members := LastMember([], key, s[afterKey..colon], s[colon + 1..at], form, s[end..q]);
    OneMember(members);
    MembersUnfold(members, [125]);
    assert s[q..q + 1] == [125];
    MemberCuts(s, p, afterKey, colon, at, end, q, q + 1);
    NothingInFront(s[p..q + 1]);
  }

  lemma OneMember(members: Members)
    requires members.LastMember?
    ensures AreMembers(members) <==>
      AllWhite(members.before) && AreLetters(members.key) && AllWhite(members.beforeColon)
      && AllWhite(members.afterColon) && IsForm(members.form) && AllWhite(members.after)
    ensures AreMembers(members) ==> MemberPairs(members) == [(LettersValue(members.key), FormValue(members.form))]
    ensures AllWhite([]) && MembersDepth(members) == FormDepth(members.form)
  {
    hide FormValue, FormDepth, LettersValue, AreLetters, IsForm;
  }

  lemma NextMemberOf(s: Text, p: nat, afterKey: nat, colon: nat, at: nat, end: nat, q: nat, r: nat, key: seq<Letter>,
                     form: Form, rest0: Members) returns (members: Members)
    requires p < afterKey <= colon < at <= end <= q < r <= |s| && s[p] == 34 && s[colon] == 58 && s[q] == 44
    requires AreLetters(key) && QuotedText(key) == s[p + 1..afterKey] && IsForm(form) && FormText(form) == s[at..end]
    requires AllWhite(s[afterKey..colon]) && AllWhite(s[colon + 1..at]) && AllWhite(s[end..q])
    requires AreMembers(rest0) && MembersText(rest0) == s[q + 1..r]
    ensures AreMembers(members) && members.before == [] && MembersText(members) == s[p..r]
    ensures MemberPairs(members) == [(LettersValue(key), FormValue(form))] + MemberPairs(rest0)
    ensures MembersDepth(members) == if MembersDepth(rest0) > FormDepth(form) then MembersDepth(rest0) else FormDepth(form)
  {
    hide *;
    members := NextMember([], key, s[afterKey..colon], s[colon + 1..at], form, s[end..q], rest0);
    MoreMembers(members);
    MembersUnfold(members, [44] + MembersText(rest0));
    CutOne(s, q, r);
    MemberCuts(s, p, afterKey, colon, at, end, q, r);
    NothingInFront(s[p..r]);
  }

  lemma MoreMembers(members: Members)
    requires members.NextMember?
    ensures AreMembers(members) <==>
      AllWhite(members.before) && AreLetters(members.key) && AllWhite(members.beforeColon)
      && AllWhite(members.afterColon) && IsForm(members.form) && AllWhite(members.after) && AreMembers(members.rest)
    ensures AreMembers(members) ==>
      MemberPairs(members) == [(LettersValue(members.key), FormValue(members.form))] + MemberPairs(members.rest)
    ensures MembersDepth(members)
         == if MembersDepth(members.rest) > FormDepth(members.form) then MembersDepth(members.rest) else FormDepth(members.form)
    ensures AllWhite([])
  {
    hide FormValue, FormDepth, LettersValue, AreLetters, IsForm;
  }

  lemma EmptyOf(s: Text, p: nat, q: nat) returns (f: Form)
    requires p < q < |s| && AllWhite(s[p + 1..q])
    requires (s[p] == 91 && s[q] == 93) || (s[p] == 123 && s[q] == 125)
    ensures IsForm(f) && FormText(f) == s[p..q + 1] && FormDepth(f) == 1
    ensures FormValue(f) == if s[p] == 91 then Arr([]) else Obj([])
  {
    f := if s[p] == 91 then EmptyList(s[p + 1..q]) else EmptyObject(s[p + 1..q]);
    CutOne(s, p, q + 1);
    Cut(s, p + 1, q, q + 1);
    assert s[q..q + 1] == [s[q]];
  }

  // ---- The reader, backwards ----

  /** What the reader has read is the text of a form, no deeper than it follows, and the value
      is what the form means. */
  lemma {:induction false} FormOf(s: Text, p: nat, depth: nat) returns (f: Form)
    requires CodePoints(s) && p <= |s| && ValueAt(s, p, depth).Some?
    ensures var (v, end) := ValueAt(s, p, depth).value;
      IsForm(f) && FormText(f) == s[p..end] && FormValue(f) == v && FormDepth(f) <= depth
    decreases |s| - p, 1
  {
    hide CodePoints, StringFrom, SkipWhite, ItemsAt, MembersAt, ScalarAt, QuotedText, LettersValue, AreLetters, AllWhite;
    hide FormText, FormValue, FormDepth, IsForm;
    if s[p] == 34 {
      var letters := LettersOf(s, p + 1);
      f := StringOf(s, p, StringFrom(s, p + 1).value.1, letters);
    } else if s[p] == 91 || s[p] == 123 {
      var q := SkipWhite(s, p + 1);
      SkippedWhite(s, p + 1);
      if q < |s| && s[q] == (if s[p] == 91 then 93 else 125) {
        f := EmptyOf(s, p, q);
      } else if s[p] == 91 {
        f := ListOf(s, p, q, depth);
      } else {
        f := ObjectOf(s, p, q, depth);
      }
    } else {
      f := ScalarOf(s, p);
    }
  }

  lemma StringOf(s: Text, p: nat, end: nat, letters: seq<Letter>) returns (f: Form)
    requires p < end <= |s| && s[p] == 34 && AreLetters(letters) && QuotedText(letters) == s[p + 1..end]
    ensures IsForm(f) && FormText(f) == s[p..end] && FormValue(f) == Str(LettersValue(letters)) && FormDepth(f) == 1
  {
    f := StringForm(letters);
    CutOne(s, p, end);
  }

  lemma {:induction false} ListOf(s: Text, p: nat, q: nat, depth: nat) returns (f: Form)
    requires CodePoints(s) && p < |s| && s[p] == 91 && q == SkipWhite(s, p + 1) && depth > 0
    requires ItemsAt(s, q, depth - 1, []).Some?
    ensures var (v, end) := ItemsAt(s, q, depth - 1, []).value;
      IsForm(f) && FormText(f) == s[p..end] && FormValue(f) == v && FormDepth(f) <= depth
    decreases |s| - p, 0
  {
    hide *;
    var (v, end) := ItemsAt(s, q, depth - 1, []).value;
    var items := ItemsOf(s, q, depth - 1, []);
    SkippedWhite(s, p + 1);
    WhiteInFront(items, s[p + 1..q]);
    var more := WithWhite(items, s[p + 1..q]);
    f := List(more);
    ListUnfolds(more);
    Cut(s, p + 1, q, end);
    CutOne(s, p, end);
    NothingInFront(ItemValues(items));
  }

  lemma {:induction false} ItemsOf(s: Text, p: nat, depth: nat, done: seq<Value>) returns (items: Items)
    requires CodePoints(s) && p <= |s| && ItemsAt(s, p, depth, done).Some?
    ensures AreItems(items) && items.before == [] && ItemsDepth(items) <= depth
    ensures ItemsAt(s, p, depth, done).value.0 == Arr(done + ItemValues(items))
    ensures ItemsText(items) == s[p..ItemsAt(s, p, depth, done).value.1]
    decreases |s| - p, 2
  {
    hide CodePoints, ValueAt, SkipWhite, FormText, FormValue, FormDepth, IsForm, AreItems, ItemsText, ItemValues, ItemsDepth, AllWhite;
    var (v, end) := ValueAt(s, p, depth).value;
    var form := FormOf(s, p, depth);
    var q := SkipWhite(s, end);
    SkippedWhite(s, end);
    if s[q] == 93 {
      items := LastOf(s, p, end, q, form);
    } else {
      var next, r := SkipWhite(s, q + 1), ItemsAt(s, p, depth, done).value.1;
      var rest := ItemsOf(s, next, depth, done + [v]);
      SkippedWhite(s, q + 1);
      WhiteInFront(rest, s[q + 1..next]);
      Cut(s, q + 1, next, r);
      items := NextOf(s, p, end, q, r, form, WithWhite(rest, s[q + 1..next]));
      assert done + [v] + ItemValues(rest) == done + ([v] + ItemValues(rest));
    }
  }

  lemma {:induction false} ObjectOf(s: Text, p: nat, q: nat, depth: nat) returns (f: Form)
    requires CodePoints(s) && p < |s| && s[p] == 123 && q == SkipWhite(s, p + 1) && depth > 0
    requires MembersAt(s, q, depth - 1, []).Some?
    ensures var (v, end) := MembersAt(s, q, depth - 1, []).value;
      IsForm(f) && FormText(f) == s[p..end] && FormValue(f) == v && FormDepth(f) <= depth
    decreases |s| - p, 0
  {
    hide *;
    var (v, end) := MembersAt(s, q, depth - 1, []).value;
    EmptyDict();
    var members := MembersOf(s, q, depth - 1, []);
    SkippedWhite(s, p + 1);
    WhiteInFrontOfMembers(members, s[p + 1..q]);
    var more := MembersWithWhite(members, s[p + 1..q]);
    f := Object(more);
    ObjectUnfolds(more);
    Cut(s, p + 1, q, end);
    CutOne(s, p, end);
    NothingInFront(MemberPairs(members));
  }

  lemma {:induction false} MembersOf(s: Text, p: nat, depth: nat, pairs: seq<(Text, Value)>) returns (members: Members)
    requires CodePoints(s) && p <= |s| && MembersAt(s, p, depth, Dict(pairs)).Some?
    ensures AreMembers(members) && members.before == [] && MembersDepth(members) <= depth
    ensures MembersAt(s, p, depth, Dict(pairs)).value.0 == Obj(Dict(pairs + MemberPairs(members)))
    ensures MembersText(members) == s[p..MembersAt(s, p, depth, Dict(pairs)).value.1]
    decreases |s| - p, 2
  {
    hide *;
    var key, afterKey, colon, at, v, end, q := MemberRead(s, p, depth, Dict(pairs));
    var letters := LettersOf(s, p + 1);
    var form := FormOf(s, at, depth);
    SkippedWhite(s, afterKey);
    SkippedWhite(s, colon + 1);
    SkippedWhite(s, end);
    DictNext(pairs, key, v);
    if s[q] == 125 {
      members := LastMemberOf(s, p, afterKey, colon, at, end, q, letters, form);
    } else {
      var next, r := SkipWhite(s, q + 1), MembersAt(s, p, depth, Dict(pairs)).value.1;
      var rest := MembersOf(s, next, depth, pairs + [(key, v)]);
      SkippedWhite(s, q + 1);
      WhiteInFrontOfMembers(rest, s[q + 1..next]);
      Cut(s, q + 1, next, r);
      members := NextMemberOf(s, p, afterKey, colon, at, end, q, r, letters, form, MembersWithWhite(rest, s[q + 1..next]));
      assert pairs + [(key, v)] + MemberPairs(rest) == pairs + ([(key, v)] + MemberPairs(rest));
    }
  }

  /** The steps of the reader for one member. */
  lemma MemberRead(s: Text, p: nat, depth: nat, done: seq<(Text, Value)>)
      returns (key: Text, afterKey: nat, colon: nat, at: nat, v: Value, end: nat, q: nat)
    requires p <= |s| && MembersAt(s, p, depth, done).Some?
    ensures p + 1 < afterKey <= colon < at < end <= q < |s| && s[p] == 34 && s[colon] == 58 && (s[q] == 125 || s[q] == 44)
    ensures StringFrom(s, p + 1) == Some((key, afterKey)) && SkipWhite(s, afterKey) == colon
    ensures SkipWhite(s, colon + 1) == at && ValueAt(s, at, depth) == Some((v, end)) && SkipWhite(s, end) == q
    ensures s[q] == 125 ==> MembersAt(s, p, depth, done) == Some((Obj(Put(done, key, v)), q + 1))
    ensures s[q] == 44 ==> MembersAt(s, p, depth, done) == MembersAt(s, SkipWhite(s, q + 1), depth, Put(done, key, v))
  {
    hide ValueAt, SkipWhite, StringFrom, Put;
    key, afterKey := StringFrom(s, p + 1).value.0, StringFrom(s, p + 1).value.1;
    colon := SkipWhite(s, afterKey);
    at := SkipWhite(s, colon + 1);
    v, end := ValueAt(s, at, depth).value.0, ValueAt(s, at, depth).value.1;
    q := SkipWhite(s, end);
  }
}
