/**
 The guard that rejects JSON bodies with a NUL character before they reach a route
 (src/cii_platform/api/nul_guard.py): a byte search decides whether the body is parsed
 at all, a recursive scan decides the answer, and the body is replayed to the application.
 */
module NulGuard {
  import opened Prelude
  import opened Json
  import Digits

  /** A way from a value to one of its parts. */
  datatype Step = Key(key: Text) | Index(index: nat)
  type Address = seq<Step>

  /** What the scan says: no NUL, the field path of the first one, or recursion too deep. */
  datatype Scan = Clean | Found(path: Text) | TooDeep

  function Decimal(n: nat): Text {
    if n < 10 then [48 + n] else Decimal(n / 10) + [48 + n % 10]
  }

  /** The field path grows by one step. */
  function Extend(path: Text, step: Step): Text {
    match step
    case Key(key) => if path != [] then path + [46] + key else key
    case Index(i) => path + [91] + Decimal(i) + [93]
  }

  /** The recursive scan, for an interpreter that follows `depth` nested calls. */
  function FindNul(v: Value, path: Text, depth: nat): Scan
    decreases v, 1, 0
  {
    if depth == 0 then TooDeep else
    match v
    case Str(text) => if 0 in text then Found(path) else Clean
    case Obj(members) => FindInMembers(v, 0, path, depth - 1)
    case Arr(items) => FindInItems(v, 0, path, depth - 1)
    case _ => Clean
  }

  function FindInMembers(v: Value, k: nat, path: Text, depth: nat): Scan
    requires v.Obj? && k <= |v.members|
    decreases v, 0, |v.members| - k
  {
    if k == |v.members| then Clean
    else if 0 in v.members[k].0 then Found(path)
    else
      var found := FindNul(v.members[k].1, Extend(path, Key(v.members[k].0)), depth);
      if found.Clean? then FindInMembers(v, k + 1, path, depth) else found
  }

  function FindInItems(v: Value, k: nat, path: Text, depth: nat): Scan
    requires v.Arr? && k <= |v.items|
    decreases v, 0, |v.items| - k
  {
    if k == |v.items| then Clean
    else
      var found := FindNul(v.items[k], Extend(path, Index(k)), depth);
      if found.Clean? then FindInItems(v, k + 1, path, depth) else found
  }

  // ---- What the scan is about ----

  /** A NUL in some string or in some key of the value. */
  predicate HasNul(v: Value) {
    match v
    case Str(text) => 0 in text
    case Obj(members) => exists k | 0 <= k < |members| :: 0 in members[k].0 || HasNul(members[k].1)
    case Arr(items) => exists k | 0 <= k < |items| :: HasNul(items[k])
    case _ => false
  }

  function Depth(v: Value): (d: nat)
    ensures d >= 1
    decreases v, 1, 0
  {
    match v
    case Obj(members) => 1 + DeepestMember(v, 0)
    case Arr(items) => 1 + DeepestItem(v, 0)
    case _ => 1
  }

  function DeepestMember(v: Value, k: nat): nat
    requires v.Obj? && k <= |v.members|
    decreases v, 0, |v.members| - k
  {
    if k == |v.members| then 0 else
    var d, rest := Depth(v.members[k].1), DeepestMember(v, k + 1);
    if d > rest then d else rest
  }

  function DeepestItem(v: Value, k: nat): nat
    requires v.Arr? && k <= |v.items|
    decreases v, 0, |v.items| - k
  {
    if k == |v.items| then 0 else
    var d, rest := Depth(v.items[k]), DeepestItem(v, k + 1);
    if d > rest then d else rest
  }

  /** The part of a value at an address. */
  function At(v: Value, address: Address): Option<Value>
    decreases |address|
  {
    if address == [] then Some(v) else
    match (v, address[0])
    case (Arr(items), Index(i)) => if i < |items| then At(items[i], address[1..]) else None
    case (Obj(members), Key(key)) => AtMember(members, key, address)
    case _ => None
  }

  function AtMember(members: seq<(Text, Value)>, key: Text, address: Address): Option<Value>
    requires address != []
    decreases |address|, |members|
  {
    if members == [] then None
    else if members[0].0 == key then At(members[0].1, address[1..])
    else AtMember(members[1..], key, address)
  }

  function Render(path: Text, address: Address): Text
    decreases |address|
  {
    if address == [] then path else Render(Extend(path, address[0]), address[1..])
  }

  /** A part that contains a NUL itself: a string with one, or an object with one in a key. */
  predicate NulHere(v: Value) {
    match v
    case Str(text) => 0 in text
    case Obj(members) => exists k | 0 <= k < |members| :: 0 in members[k].0
    case _ => false
  }

  /** A dictionary holds each key once. */
  predicate DistinctKeys(v: Value) {
    match v
    case Obj(members) =>
      (forall i, j | 0 <= i < j < |members| :: members[i].0 != members[j].0)
      && forall k | 0 <= k < |members| :: DistinctKeys(members[k].1)
    case Arr(items) => forall k | 0 <= k < |items| :: DistinctKeys(items[k])
    case _ => true
  }

  lemma {:induction false} AtMemberIndex(members: seq<(Text, Value)>, k: nat, address: Address)
    requires k < |members| && address != []
    requires forall i, j | 0 <= i < j < |members| :: members[i].0 != members[j].0
    ensures AtMember(members, members[k].0, address) == At(members[k].1, address[1..])
    decreases k
  {
    if k > 0 {
      AtMemberIndex(members[1..], k - 1, address);
    }
  }

  /** When the scan finds something, the reported path is the written form of an address,
      and the part of the value at that address contains a NUL. */
  lemma {:induction false} FoundAddress(v: Value, path: Text, depth: nat) returns (address: Address)
    requires DistinctKeys(v) && FindNul(v, path, depth).Found?
    ensures |address| < depth
    ensures At(v, address).Some? && NulHere(At(v, address).value)
    ensures FindNul(v, path, depth).path == Render(path, address)
    decreases v, 1, 0
  {
    match v
    case Str(_) => address := [];
    case Obj(_) => address := FoundMember(v, 0, path, depth - 1);
    case Arr(_) => address := FoundItem(v, 0, path, depth - 1);
  }

  lemma {:induction false} FoundMember(v: Value, k: nat, path: Text, depth: nat) returns (address: Address)
    requires v.Obj? && k <= |v.members| && DistinctKeys(v) && FindInMembers(v, k, path, depth).Found?
    ensures |address| <= depth
    ensures At(v, address).Some? && NulHere(At(v, address).value)
    ensures FindInMembers(v, k, path, depth).path == Render(path, address)
    decreases v, 0, |v.members| - k
  {
    var (key, item) := v.members[k];
    if 0 in key {
      address := [];
    } else if FindNul(item, Extend(path, Key(key)), depth).Clean? {
      address := FoundMember(v, k + 1, path, depth);
    } else {
      var rest := FoundAddress(item, Extend(path, Key(key)), depth);
      address := [Key(key)] + rest;
      AtMemberIndex(v.members, k, address);
    }
  }

  lemma {:induction false} FoundItem(v: Value, k: nat, path: Text, depth: nat) returns (address: Address)
    requires v.Arr? && k <= |v.items| && DistinctKeys(v) && FindInItems(v, k, path, depth).Found?
    ensures |address| <= depth
    ensures At(v, address).Some? && NulHere(At(v, address).value)
    ensures FindInItems(v, k, path, depth).path == Render(path, address)
    decreases v, 0, |v.items| - k
  {
    if FindNul(v.items[k], Extend(path, Index(k)), depth).Clean? {
      address := FoundItem(v, k + 1, path, depth);
    } else {
      var rest := FoundAddress(v.items[k], Extend(path, Index(k)), depth);
      address := [Index(k)] + rest;
    }
  }

  /** For values the interpreter can follow, the scan finds something exactly when there
      is a NUL in some string or key. */
  lemma {:induction false} FindsExactly(v: Value, path: Text, depth: nat)
    requires Depth(v) <= depth
    ensures FindNul(v, path, depth).Found? <==> HasNul(v)
    ensures !FindNul(v, path, depth).TooDeep?
    decreases v, 1, 0
  {
    hide FindInMembers, FindInItems, DeepestMember, DeepestItem;
    match v
    case Obj(_) => FindsMembers(v, 0, path, depth - 1);
    case Arr(_) => FindsItems(v, 0, path, depth - 1);
    case _ =>
  }

  lemma {:induction false} FindsMembers(v: Value, k: nat, path: Text, depth: nat)
    requires v.Obj? && k <= |v.members| && DeepestMember(v, k) <= depth
    ensures FindInMembers(v, k, path, depth).Found?
       <==> exists i | k <= i < |v.members| :: 0 in v.members[i].0 || HasNul(v.members[i].1)
    ensures !FindInMembers(v, k, path, depth).TooDeep?
    decreases v, 0, |v.members| - k
  {
    if k < |v.members| {
      FindsExactly(v.members[k].1, Extend(path, Key(v.members[k].0)), depth);
      FindsMembers(v, k + 1, path, depth);
    }
  }

  lemma {:induction false} FindsItems(v: Value, k: nat, path: Text, depth: nat)
    requires v.Arr? && k <= |v.items| && DeepestItem(v, k) <= depth
    ensures FindInItems(v, k, path, depth).Found? <==> exists i | k <= i < |v.items| :: HasNul(v.items[i])
    ensures !FindInItems(v, k, path, depth).TooDeep?
    decreases v, 0, |v.items| - k
  {
    if k < |v.items| {
      FindsExactly(v.items[k], Extend(path, Index(k)), depth);
      FindsItems(v, k + 1, path, depth);
    }
  }

  /** At any depth limit, a find is a real one. */
  lemma {:induction false} FoundIsReal(v: Value, path: Text, depth: nat)
    requires FindNul(v, path, depth).Found?
    ensures HasNul(v)
    decreases v, 1, 0
  {
    match v
    case Obj(_) => FoundMemberIsReal(v, 0, path, depth - 1);
    case Arr(_) => FoundItemIsReal(v, 0, path, depth - 1);
    case _ =>
  }

  lemma {:induction false} FoundMemberIsReal(v: Value, k: nat, path: Text, depth: nat)
    requires v.Obj? && k <= |v.members| && FindInMembers(v, k, path, depth).Found?
    ensures HasNul(v)
    decreases v, 0, |v.members| - k
  {
    if 0 !in v.members[k].0 {
      if FindNul(v.members[k].1, Extend(path, Key(v.members[k].0)), depth).Clean? {
        FoundMemberIsReal(v, k + 1, path, depth);
      } else {
        FoundIsReal(v.members[k].1, Extend(path, Key(v.members[k].0)), depth);
      }
    }
  }

  lemma {:induction false} FoundItemIsReal(v: Value, k: nat, path: Text, depth: nat)
    requires v.Arr? && k <= |v.items| && FindInItems(v, k, path, depth).Found?
    ensures HasNul(v)
    decreases v, 0, |v.items| - k
  {
    if FindNul(v.items[k], Extend(path, Index(k)), depth).Clean? {
      FoundItemIsReal(v, k + 1, path, depth);
    } else {
      FoundIsReal(v.items[k], Extend(path, Index(k)), depth);
    }
  }

  // ---- Document order ----

  /** A place in a value: which member or item to take at each step. */
  type Place = seq<nat>

  function Kids(v: Value): nat {
    match v
    case Obj(members) => |members|
    case Arr(items) => |items|
    case _ => 0
  }

  function Kid(v: Value, k: nat): Value
    requires k < Kids(v)
  {
    if v.Obj? then v.members[k].1 else v.items[k]
  }

  function StepTo(v: Value, k: nat): Step
    requires k < Kids(v)
  {
    if v.Obj? then Key(v.members[k].0) else Index(k)
  }

  predicate KeyNul(v: Value, k: nat)
    requires k < Kids(v)
  {
    v.Obj? && 0 in v.members[k].0
  }

  /** At the place, within `limit` nested calls, stands a string with a NUL or a member
      whose key has one. */
  predicate NulAt(v: Value, place: Place, limit: nat)
    decreases |place|
  {
    limit > 0 &&
    if place == [] then v.Str? && 0 in v.text
    else
      place[0] < Kids(v)
      && ((|place| == 1 && KeyNul(v, place[0])) || NulAt(Kid(v, place[0]), place[1..], limit - 1))
  }

  /** At the place stands a part nested as deep as the limit: the scan of it is one call
      too many. */
  predicate Deep(v: Value, place: Place, limit: nat)
    decreases |place|
  {
    if place == [] then limit == 0
    else limit > 0 && place[0] < Kids(v) && Deep(Kid(v, place[0]), place[1..], limit - 1)
  }

  /** Document order: a part comes before what is inside it, and that before the next part.
      A member's key comes before its value. */
  predicate Precedes(p: Place, q: Place)
    decreases |p|
  {
    p == [] || (q != [] && (p[0] < q[0] || (p[0] == q[0] && Precedes(p[1..], q[1..]))))
  }

  /** The field path that names a place with a NUL; for a key, that of its object. */
  function Written(v: Value, path: Text, place: Place): Text
    decreases |place|
  {
    if place == [] || place[0] >= Kids(v) || (|place| == 1 && KeyNul(v, place[0])) then path
    else Written(Kid(v, place[0]), Extend(path, StepTo(v, place[0])), place[1..])
  }

  /** Where something happens to the scan. */
  predicate Event(v: Value, place: Place, limit: nat) {
    NulAt(v, place, limit) || Deep(v, place, limit)
  }

  /** The outcome of a scan is the first of its events: nothing where there is none, the
      written place of a NUL, or a part that is one call too deep. */
  ghost predicate Tells(v: Value, path: Text, limit: nat, scan: Scan, p: Place) {
    match scan
    case Clean => forall q :: !Event(v, q, limit)
    case Found(field) =>
      NulAt(v, p, limit) && field == Written(v, path, p) && forall q | Event(v, q, limit) :: Precedes(p, q)
    case TooDeep =>
      Deep(v, p, limit) && !NulAt(v, p, limit) && forall q | Event(v, q, limit) :: Precedes(p, q)
  }

  /** The same for what is left of a list or an object from its part k on. */
  ghost predicate TellsFrom(v: Value, k: nat, path: Text, limit: nat, scan: Scan, p: Place) {
    match scan
    case Clean => forall q | q != [] && q[0] >= k :: !Event(v, q, limit)
    case Found(field) =>
      p != [] && NulAt(v, p, limit) && field == Written(v, path, p)
      && forall q | Event(v, q, limit) && q != [] && q[0] >= k :: Precedes(p, q)
    case TooDeep =>
      p != [] && Deep(v, p, limit) && !NulAt(v, p, limit)
      && forall q | Event(v, q, limit) && q != [] && q[0] >= k :: Precedes(p, q)
  }

  function FindInKids(v: Value, k: nat, path: Text, depth: nat): Scan
    requires k <= Kids(v)
  {
    if v.Obj? then FindInMembers(v, k, path, depth)
    else if v.Arr? then FindInItems(v, k, path, depth)
    else Clean
  }

  lemma KidsUnfold(v: Value, k: nat, path: Text, depth: nat)
    requires k < Kids(v)
    ensures KeyNul(v, k) ==> FindInKids(v, k, path, depth) == Found(path)
    ensures !KeyNul(v, k) ==>
      var found := FindNul(Kid(v, k), Extend(path, StepTo(v, k)), depth);
      FindInKids(v, k, path, depth) == if found.Clean? then FindInKids(v, k + 1, path, depth) else found
  {
  }

  lemma {:induction false} PlaceOrder(p: Place, q: Place)
    requires Precedes(p, q) && Precedes(q, p)
    ensures p == q
    decreases |p|
  {
    if p != [] {
      PlaceOrder(p[1..], q[1..]);
      assert p == [p[0]] + p[1..] && q == [q[0]] + q[1..];
    }
  }

  /** The events inside one part, seen from the whole. */
  lemma KidEvent(v: Value, q: Place, limit: nat)
    requires q != [] && limit > 0 && q[0] < Kids(v) && !KeyNul(v, q[0])
    ensures NulAt(v, q, limit) <==> NulAt(Kid(v, q[0]), q[1..], limit - 1)
    ensures Deep(v, q, limit) <==> Deep(Kid(v, q[0]), q[1..], limit - 1)
  {
  }

  /** What a scan tells of one part, it tells of the whole from that part on. */
  lemma KidTells(v: Value, k: nat, path: Text, limit: nat, scan: Scan, inside: Place)
    requires limit > 0 && k < Kids(v) && !KeyNul(v, k) && !scan.Clean?
    requires Tells(Kid(v, k), Extend(path, StepTo(v, k)), limit - 1, scan, inside)
    ensures TellsFrom(v, k, path, limit, scan, [k] + inside)
  {
    hide Extend, StepTo;
    var p := [k] + inside;
    assert p[1..] == inside;
    KidEvent(v, p, limit);
    forall q | Event(v, q, limit) && q != [] && q[0] >= k
      ensures Precedes(p, q)
    {
      if q[0] == k {
        KidEvent(v, q, limit);
        assert Event(Kid(v, k), q[1..], limit - 1);
      }
    }
  }

  lemma KeyTells(v: Value, k: nat, path: Text, limit: nat)
    requires limit > 0 && k < Kids(v) && KeyNul(v, k)
    ensures TellsFrom(v, k, path, limit, Found(path), [k])
  {
    hide Extend, StepTo, Deep;
    assert NulAt(v, [k], limit);
    assert Written(v, path, [k]) == path;
    forall q: Place | q != [] && q[0] >= k
      ensures Precedes([k], q)
    {
      assert [k][1..] == [];
      assert Precedes([k][1..], q[1..]);
    }
  }

  lemma NothingAt(v: Value, k: nat, path: Text, limit: nat, scan: Scan, inside: Place, p: Place)
    requires limit > 0 && k < Kids(v) && !KeyNul(v, k)
    requires Tells(Kid(v, k), Extend(path, StepTo(v, k)), limit - 1, Clean, inside)
    requires TellsFrom(v, k + 1, path, limit, scan, p)
    ensures TellsFrom(v, k, path, limit, scan, p)
  {
    hide Extend, StepTo, Written;
    forall q | q != [] && q[0] == k
      ensures !Event(v, q, limit)
    {
      KidEvent(v, q, limit);
      assert !Event(Kid(v, k), q[1..], limit - 1);
    }
  }

  /** The scan reports the first event in document order. */
  lemma {:induction false} FirstEvent(v: Value, path: Text, limit: nat) returns (p: Place)
    ensures Tells(v, path, limit, FindNul(v, path, limit), p)
    decreases v, 1, 0
  {
    p := [];
    if limit > 0 && Kids(v) > 0 {
      p := FirstAmong(v, 0, path, limit);
    }
  }

  lemma {:induction false} FirstAmong(v: Value, k: nat, path: Text, limit: nat) returns (p: Place)
    requires limit > 0 && k <= Kids(v)
    ensures TellsFrom(v, k, path, limit, FindInKids(v, k, path, limit - 1), p)
    decreases v, 0, Kids(v) - k
  {
    hide FindNul, Extend, StepTo, Tells;
    p := [];
    if k == Kids(v) {
      assert TellsFrom(v, k, path, limit, Clean, p);
    } else {
      KidsUnfold(v, k, path, limit - 1);
      if KeyNul(v, k) {
        p := [k];
        KeyTells(v, k, path, limit);
      } else {
        var item, step := Kid(v, k), Extend(path, StepTo(v, k));
        var inside := FirstEvent(item, step, limit - 1);
        var scan := FindNul(item, step, limit - 1);
        if scan.Clean? {
          p := FirstAmong(v, k + 1, path, limit);
          NothingAt(v, k, path, limit, FindInKids(v, k + 1, path, limit - 1), inside, p);
        } else {
          p := [k] + inside;
          KidTells(v, k, path, limit, scan, inside);
        }
      }
    }
  }

  /** A NUL within the limit comes before every part nested as deep as the limit. */
  ghost predicate NulBeforeDeep(v: Value, limit: nat) {
    exists p :: NulAt(v, p, limit) && forall q | Deep(v, q, limit) :: Precedes(p, q)
  }

  /** At any limit: the scan finds something exactly when a NUL within the limit comes before
      every part that is too deep, and it reports the first NUL in document order. */
  lemma FindsExactlyAtLimit(v: Value, path: Text, limit: nat) returns (p: Place)
    ensures FindNul(v, path, limit).Found? <==> NulBeforeDeep(v, limit)
    ensures FindNul(v, path, limit).Found? ==>
              NulAt(v, p, limit) && FindNul(v, path, limit) == Found(Written(v, path, p))
              && forall q | NulAt(v, q, limit) :: Precedes(p, q)
  {
    p := FirstEvent(v, path, limit);
    var found := FindNul(v, path, limit);
    if found.Found? {
      assert forall q | Deep(v, q, limit) :: Event(v, q, limit);
    } else if NulBeforeDeep(v, limit) {
      var nul :| NulAt(v, nul, limit) && forall q | Deep(v, q, limit) :: Precedes(nul, q);
      assert Event(v, nul, limit);
      PlaceOrder(nul, p);
    }
  }

  // ---- The text of a field path ----

  lemma {:induction false} DecimalIs(n: nat)
    ensures Decimal(n) == Ascii(Digits.Numeral(n))
  {
    if n >= 10 {
      DecimalIs(n / 10);
    }
  }

  /** The texts one after the other. */
  function Glued(pieces: seq<Text>): Text {
    if pieces == [] then [] else Glued(pieces[..|pieces| - 1]) + pieces[|pieces| - 1]
  }

  predicate AllEmpty(pieces: seq<Text>) {
    forall j | 0 <= j < |pieces| :: pieces[j] == []
  }

  /** An index stands in brackets as a decimal number without leading zeros; a key stands behind
      a point, without one as long as the path is empty. */
  ghost predicate IsPiece(piece: Text, step: Step, first: bool) {
    match step
    case Index(i) => exists digits: string | Digits.Canonical(digits) ::
                       Digits.Value(digits) == i && piece == Ascii("[" + digits + "]")
    case Key(key) => piece == if first then key else Ascii(".") + key
  }

  ghost predicate ArePieces(pieces: seq<Text>, address: Address) {
    |pieces| == |address| && forall k | 0 <= k < |address| :: IsPiece(pieces[k], address[k], AllEmpty(pieces[..k]))
  }

  lemma {:induction false} EmptyPieces(pieces: seq<Text>)
    ensures Glued(pieces) == [] <==> AllEmpty(pieces)
  {
    if pieces != [] {
      EmptyPieces(pieces[..|pieces| - 1]);
    }
  }

  lemma InBrackets(digits: string)
    ensures Ascii("[" + digits + "]") == [91] + Ascii(digits) + [93]
  {
  }

  lemma PieceOf(path: Text, step: Step) returns (piece: Text)
    ensures IsPiece(piece, step, path == []) && Extend(path, step) == path + piece
  {
    match step
    case Index(i) =>
      var digits := Digits.Numeral(i);
      DecimalIs(i);
      Digits.NumeralValue(i);
      InBrackets(digits);
      hide Decimal, Digits.Value, Digits.Canonical, Digits.Numeral;
      piece := Ascii("[" + digits + "]");
      assert path + [91] + Decimal(i) + [93] == path + ([91] + Decimal(i) + [93]);
    case Key(key) =>
      piece := if path == [] then key else Ascii(".") + key;
      assert Ascii(".") == [46];
      assert path + [46] + key == path + ([46] + key);
  }

  lemma NextPiece(pieces: seq<Text>, address: Address, step: Step) returns (piece: Text)
    requires ArePieces(pieces, address)
    ensures ArePieces(pieces + [piece], address + [step])
    ensures Glued(pieces + [piece]) == Extend(Glued(pieces), step)
  {
    hide IsPiece, AllEmpty, Extend;
    EmptyPieces(pieces);
    piece := PieceOf(Glued(pieces), step);
    var all := pieces + [piece];
    assert all[..|pieces|] == pieces;
    forall k | 0 <= k < |all|
      ensures IsPiece(all[k], (address + [step])[k], AllEmpty(all[..k]))
    {
      if k < |pieces| {
        assert all[..k] == pieces[..k];
      }
    }
  }

  /** Every written address is glued from such pieces. */
  lemma {:induction false} RenderIsGlued(address: Address, path: Text, before: Address, pieces: seq<Text>)
      returns (all: seq<Text>)
    requires ArePieces(pieces, before) && Glued(pieces) == path
    ensures ArePieces(all, before + address) && Render(path, address) == Glued(all)
    decreases |address|
  {
    hide Glued, Extend, ArePieces;
    all := pieces;
    if address == [] {
      assert before + address == before;
    } else {
      var piece := NextPiece(pieces, before, address[0]);
      all := RenderIsGlued(address[1..], Extend(path, address[0]), before + [address[0]], pieces + [piece]);
      assert before + [address[0]] + address[1..] == before + address;
    }
  }

  /** The way from a value to the part that a place names; for a key, to its object. */
  function Way(v: Value, place: Place): Address
    decreases |place|
  {
    if place == [] || place[0] >= Kids(v) || (|place| == 1 && KeyNul(v, place[0])) then []
    else [StepTo(v, place[0])] + Way(Kid(v, place[0]), place[1..])
  }

  lemma {:induction false} WrittenIsRendered(v: Value, path: Text, place: Place)
    ensures Written(v, path, place) == Render(path, Way(v, place))
    decreases |place|
  {
    if Way(v, place) != [] {
      WrittenIsRendered(Kid(v, place[0]), Extend(path, StepTo(v, place[0])), place[1..]);
    }
  }

  lemma {:induction false} WayLeadsTo(v: Value, place: Place, limit: nat)
    requires DistinctKeys(v) && NulAt(v, place, limit)
    ensures At(v, Way(v, place)).Some? && NulHere(At(v, Way(v, place)).value)
    decreases |place|
  {
    if Way(v, place) == [] {
      assert place != [] ==> 0 in v.members[place[0]].0;
    } else {
      WayLeadsTo(Kid(v, place[0]), place[1..], limit - 1);
      if v.Obj? {
        AtMemberIndex(v.members, place[0], Way(v, place));
      }
    }
  }

  lemma EmptyPath()
    ensures ArePieces([], []) && Glued([]) == []
  {
  }

  /** The field path of a NUL leads to the string that has it, or to the object that has it in
      a key, and it is written step by step. */
  lemma FieldSpelledOut(v: Value, place: Place, limit: nat) returns (address: Address, pieces: seq<Text>)
    requires DistinctKeys(v) && NulAt(v, place, limit)
    ensures At(v, address).Some? && NulHere(At(v, address).value)
    ensures ArePieces(pieces, address) && Written(v, [], place) == Glued(pieces)
  {
    hide At, Glued, ArePieces, Written, Render, Way, NulHere, DistinctKeys, NulAt;
    address := Way(v, place);
    EmptyPath();
    WayLeadsTo(v, place, limit);
    WrittenIsRendered(v, [], place);
    pieces := RenderIsGlued(address, [], [], []);
    assert [] + address == address;
  }

  /** `depth` arrays around a one-character string. */
  function Wrapped(depth: nat, c: nat): Value {
    if depth == 0 then Str([c]) else Arr([Wrapped(depth - 1, c)])
  }

  /** Beyond the interpreter's limit the scan gives up: for every limit there is a value
      with a NUL one level deeper that it does not report. */
  lemma {:induction false} DeepNulIsMissed(depth: nat, path: Text)
    ensures HasNul(Wrapped(depth, 0)) && Depth(Wrapped(depth, 0)) == depth + 1
    ensures FindNul(Wrapped(depth, 0), path, depth) == TooDeep
  {
    if depth > 0 {
      DeepNulIsMissed(depth - 1, Extend(path, Index(0)));
      var v := Wrapped(depth, 0);
      assert v.items[0] == Wrapped(depth - 1, 0);
      assert DeepestItem(v, 1) == 0;
      assert FindInItems(v, 0, path, depth - 1) == TooDeep;
    }
  }
}
