/**
 Byte ranges of one file, over a server that only knows whole files:
 frontend/functions/_byteRange.ts and frontend/functions/basemap/[[path]].ts.
 The forms of a range are those of section 14.1.2 of RFC 9110; any other Range header is
 ignored, as section 14.2 allows.
 */
module ByteRange {
  import opened Prelude
  import opened Digits
  import opened DecimalText

  /** The largest integer that the program's numbers hold without rounding. */
  const MAX_SAFE_INTEGER := 9_007_199_254_740_991

  datatype RangeResult = NoRange | Satisfiable(start: nat, end: nat) | Unsatisfiable

  /** A number above the limit is rounded, but never to one that is inside it. */
  function ParseIndex(value: string): Option<nat> {
    if value == [] || !AllDigits(value) || Value(value) > MAX_SAFE_INTEGER then None else Some(Value(value))
  }

  function Dash(r: string): (k: nat)
    ensures k <= |r|
    ensures k < |r| ==> r[k] == '-'
  {
    if r == [] || r[0] == '-' then 0 else 1 + Dash(r[1..])
  }

  /** The grammar test `bytes=(\d*)-(\d*)` on the whole text, and the two groups. */
  predicate IsRange(t: string) {
    && |t| >= 6 && t[..6] == "bytes="
    && var k := 6 + Dash(t[6..]);
       k < |t| && AllDigits(t[6..k]) && AllDigits(t[k + 1..])
  }

  function RawStart(t: string): string
    requires IsRange(t)
  {
    t[6..6 + Dash(t[6..])]
  }

  function RawEnd(t: string): string
    requires IsRange(t)
  {
    t[7 + Dash(t[6..])..]
  }

  function ParseByteRange(header: Option<string>, size: nat): RangeResult {
    if header.None? || size <= 0 then NoRange else
    var t := Trim(header.value);
    if !IsRange(t) then NoRange
    else if RawStart(t) == [] then
      var suffix := ParseIndex(RawEnd(t));
      if suffix.None? || suffix.value == 0 then NoRange
      else Satisfiable(if size <= suffix.value then 0 else size - suffix.value, size - 1)
    else
      var start := ParseIndex(RawStart(t));
      if start.None? then NoRange
      else if start.value >= size then Unsatisfiable
      else if RawEnd(t) == [] then Satisfiable(start.value, size - 1)
      else
        var end := ParseIndex(RawEnd(t));
        if end.None? || end.value < start.value then NoRange
        else Satisfiable(start.value, if end.value <= size - 1 then end.value else size - 1)
  }

  // ---- What a header asks for ----

  function RangeText(first: string, last: string): string {
    "bytes=" + first + "-" + last
  }

  lemma {:induction false} DashAfterDigits(first: string, last: string)
    requires AllDigits(first)
    ensures Dash(first + "-" + last) == |first|
  {
    var r := first + "-" + last;
    if first != [] {
      assert r[1..] == first[1..] + "-" + last;
      DashAfterDigits(first[1..], last);
    }
  }

  lemma RangeTextParts(first: string, last: string)
    requires AllDigits(first) && AllDigits(last)
    ensures var t := RangeText(first, last); IsRange(t) && RawStart(t) == first && RawEnd(t) == last && Trim(t) == t
  {
    var t := RangeText(first, last);
    DashAfterDigits(first, last);
    assert t[6..] == first + "-" + last;
    assert TrimStart(t) == t;
    assert t[|t| - 1] == if last == [] then '-' else last[|last| - 1];
  }

  /** The grammar takes exactly the texts made of two digit strings. */
  lemma RangeTexts(t: string)
    requires IsRange(t)
    ensures AllDigits(RawStart(t)) && AllDigits(RawEnd(t)) && t == RangeText(RawStart(t), RawEnd(t))
  {
    var k := Dash(t[6..]);
    assert t == t[..6] + t[6..6 + k] + [t[6 + k]] + t[7 + k..];
  }

  /** The positions of a file that a range names: between two positions, from one on, or the
      last so many. */
  predicate Names(first: string, last: string, size: nat, i: nat)
    requires AllDigits(first) && AllDigits(last)
  {
    && i < size
    && if first == [] then last != [] && size <= i + Value(last)
       else Value(first) <= i && (last != [] ==> i <= Value(last))
  }

  /** The numbers that are there can be represented. */
  predicate Readable(first: string, last: string) {
    && (first != [] ==> ParseIndex(first).Some?)
    && (last != [] ==> ParseIndex(last).Some?)
  }

  /** A range is satisfiable exactly when it names at least one position, and then it is the
      stretch of exactly the positions it names. */
  lemma ParsesExactly(header: string, size: nat)
    ensures var t, r := Trim(header), ParseByteRange(Some(header), size);
      && (r.Satisfiable? ==> IsRange(t) && r.start <= r.end < size
                              && forall i: nat :: r.start <= i <= r.end <==> Names(RawStart(t), RawEnd(t), size, i))
      && (IsRange(t) && Readable(RawStart(t), RawEnd(t)) ==>
            (r.Satisfiable? <==> exists i: nat :: Names(RawStart(t), RawEnd(t), size, i)))
      && (IsRange(t) && !Readable(RawStart(t), RawEnd(t)) ==> !r.Satisfiable?)
      && (r.Unsatisfiable? <==>
            0 < size && IsRange(t) && RawStart(t) != [] && ParseIndex(RawStart(t)).Some? && size <= Value(RawStart(t)))
  {
    var t, r := Trim(header), ParseByteRange(Some(header), size);
    hide Trim, Value;
    if IsRange(t) {
      RangeTexts(t);
      hide IsRange, AllDigits;
      if r.Satisfiable? {
        assert Names(RawStart(t), RawEnd(t), size, r.start);
      }
    }
  }

  lemma InsideFile(header: Option<string>, size: nat)
    ensures var r := ParseByteRange(header, size); r.Satisfiable? ==> r.start <= r.end < size
  {
    if header.Some? {
      ParsesExactly(header.value, size);
    }
  }

  // ---- The answer ----

  type Bytes = seq<bv8>

  /** Header names are compared without regard to case; they are written in lower case here. */
  datatype Response = Response(status: nat, headers: map<string, string>, body: Option<Bytes>)

  const COPIED_HEADERS := ["content-type", "cache-control", "etag", "last-modified"]

  function ContentRangeValue(start: nat, end: nat, size: nat): string {
    "bytes " + Numeral(start) + "-" + Numeral(end) + "/" + Numeral(size)
  }

  function UnsatisfiedRangeValue(size: nat): string {
    "bytes */" + Numeral(size)
  }

  /** How many digits a text begins with. */
  function LeadingDigits(s: string): nat {
    if s == [] || !IsDigit(s[0]) then 0 else 1 + LeadingDigits(s[1..])
  }

  lemma {:induction false} DigitsThen(a: string, x: string)
    requires AllDigits(a) && x != [] && !IsDigit(x[0])
    ensures LeadingDigits(a + x) == |a|
  {
    if a == [] {
      assert a + x == x;
    } else {
      assert (a + x)[1..] == a[1..] + x;
      DigitsThen(a[1..], x);
    }
  }

  lemma SplitAfterDigits(a: string, x: string, b: string, y: string)
    requires AllDigits(a) && x != [] && !IsDigit(x[0]) && AllDigits(b) && y != [] && !IsDigit(y[0])
    requires a + x == b + y
    ensures a == b && x == y
  {
    DigitsThen(a, x);
    DigitsThen(b, y);
    assert a == (a + x)[..|a|] && b == (b + y)[..|b|];
    assert x == (a + x)[|a|..] && y == (b + y)[|b|..];
  }

  /** A client can read the range and the size off the header. */
  lemma ContentRangeTells(start: nat, end: nat, size: nat, start': nat, end': nat, size': nat)
    requires ContentRangeValue(start, end, size) == ContentRangeValue(start', end', size')
    ensures start == start' && end == end' && size == size'
  {
    hide Numeral, Value, AllDigits;
    var x, x' := "/" + Numeral(size), "/" + Numeral(size');
    var y, y' := "-" + (Numeral(end) + x), "-" + (Numeral(end') + x');
    assert Numeral(start) + y == ContentRangeValue(start, end, size)[6..];
    assert Numeral(start') + y' == ContentRangeValue(start', end', size')[6..];
    hide ContentRangeValue;
    SplitAfterDigits(Numeral(start), y, Numeral(start'), y');
    assert y[1..] == Numeral(end) + x && y'[1..] == Numeral(end') + x';
    SplitAfterDigits(Numeral(end), x, Numeral(end'), x');
    assert x[1..] == Numeral(size) && x'[1..] == Numeral(size');
    NumeralValue(start);
    NumeralValue(start');
    NumeralValue(end);
    NumeralValue(end');
    NumeralValue(size);
    NumeralValue(size');
  }

  function Copied(from: map<string, string>): map<string, string> {
    map name | name in COPIED_HEADERS && name in from :: from[name]
  }

  /** A piece of the file. */
  function Piece(file: Bytes, headers: map<string, string>, start: nat, end: nat): Response
    requires start <= end < |file|
  {
    var slice := file[start..end + 1];
    Response(206, Copied(headers)["accept-ranges" := "bytes"]["content-range" := ContentRangeValue(start, end, |file|)]
                    ["content-length" := Numeral(|slice|)], Some(slice))
  }

  function Refusal(file: Bytes, headers: map<string, string>): Response {
    Response(416, Copied(headers)["accept-ranges" := "bytes"]["content-range" := UnsatisfiedRangeValue(|file|)], None)
  }

  /** The answer to a request, from the whole file that the asset server sends. */
  function Served(upstream: Response, header: Option<string>): Response {
    if upstream.status != 200 then upstream else
    var bytes := if upstream.body.Some? then upstream.body.value else [];
    match ParseByteRange(header, |bytes|)
    case NoRange => Response(200, upstream.headers["accept-ranges" := "bytes"], if header.None? then upstream.body else Some(bytes))
    case Unsatisfiable => Refusal(bytes, upstream.headers)
    case Satisfiable(start, end) =>
      InsideFile(header, |bytes|);
      Piece(bytes, upstream.headers, start, end)
  }

  // ---- The answer, spelled out ----

  /** The decimal number without leading zeros. */
  ghost predicate Numbered(s: string, n: nat) {
    Canonical(s) && Value(s) == n
  }

  /** The number, if one is given, can be represented. */
  ghost predicate Fits(s: string)
    requires AllDigits(s)
  {
    s == [] || Value(s) <= 9_007_199_254_740_991
  }

  ghost predicate NamesOne(first: string, last: string, size: nat)
    requires AllDigits(first) && AllDigits(last)
  {
    exists i: nat :: Names(first, last, size, i)
  }

  /** Four headers of the file are kept where it has them; all others are new. */
  ghost predicate Keeps(now: map<string, string>, headers: map<string, string>, added: set<string>) {
    var kept := {"content-type", "cache-control", "etag", "last-modified"};
    && (forall name | name in kept && name in headers :: name in now && now[name] == headers[name])
    && (forall name | name in now :: name in added || (name in kept && name in headers))
    && (forall name | name in added :: name in now)
  }

  /** The range and the size, as in `bytes 0-6/100`. */
  ghost predicate Says(text: string, start: nat, end: nat, size: nat) {
    exists s: string, e: string, z: string | Numbered(s, start) && Numbered(e, end) && Numbered(z, size) ::
      text == "bytes " + s + "-" + e + "/" + z
  }

  ghost predicate SaysSize(text: string, size: nat) {
    exists z: string | Numbered(z, size) :: text == "bytes */" + z
  }

  /** The whole file, with the news that ranges are served. */
  ghost predicate IsWhole(r: Response, file: Bytes, headers: map<string, string>) {
    r.status == 200 && r.body == Some(file) && r.headers == headers["accept-ranges" := "bytes"]
  }

  /** The bytes from start to end, in order, and which they are. */
  ghost predicate IsPiece(r: Response, file: Bytes, headers: map<string, string>, start: nat, end: nat) {
    && start <= end < |file| && r.status == 206 && r.body == Some(file[start..end + 1])
    && Keeps(r.headers, headers, {"accept-ranges", "content-range", "content-length"})
    && r.headers["accept-ranges"] == "bytes" && Says(r.headers["content-range"], start, end, |file|)
    && Numbered(r.headers["content-length"], end + 1 - start)
  }

  ghost predicate IsRefusal(r: Response, file: Bytes, headers: map<string, string>) {
    && r.status == 416 && r.body == None
    && Keeps(r.headers, headers, {"accept-ranges", "content-range"})
    && r.headers["accept-ranges"] == "bytes" && SaysSize(r.headers["content-range"], |file|)
  }

  lemma NumeralNumbers(n: nat)
    ensures Numbered(Numeral(n), n)
  {
    NumeralValue(n);
  }

  lemma RangeSays(start: nat, end: nat, size: nat)
    ensures Says(ContentRangeValue(start, end, size), start, end, size)
  {
    hide Numeral, Numbered;
    NumeralNumbers(start);
    NumeralNumbers(end);
    NumeralNumbers(size);
  }

  lemma PieceSpelledOut(file: Bytes, headers: map<string, string>, start: nat, end: nat)
    requires start <= end < |file|
    ensures IsPiece(Piece(file, headers, start, end), file, headers, start, end)
  {
    NumeralNumbers(end + 1 - start);
    RangeSays(start, end, |file|);
    hide Numeral, Numbered, Says, ContentRangeValue;
  }

  lemma RefusalSpelledOut(file: Bytes, headers: map<string, string>)
    ensures IsRefusal(Refusal(file, headers), file, headers)
  {
    NumeralNumbers(|file|);
    hide Numeral, Numbered;
  }

  lemma ParsesRange(header: string, first: string, last: string, size: nat)
    requires AllDigits(first) && AllDigits(last) && Trim(header) == RangeText(first, last)
    ensures var r := ParseByteRange(Some(header), size);
      && (r.Satisfiable? <==> Fits(first) && Fits(last) && NamesOne(first, last, size))
      && (r.Satisfiable? ==> r.start <= r.end < size && forall i: nat :: r.start <= i <= r.end <==> Names(first, last, size, i))
      && (r.Unsatisfiable? <==> first != [] && Fits(first) && 0 < size <= Value(first))
  {
    RangeTextParts(first, last);
    ParsesExactly(header, size);
    hide Trim, IsRange, RangeText, RawStart, RawEnd, Names, Value, ParseByteRange;
  }

  /** The answer to what the header is read as. */
  lemma AnswersParsed(file: Bytes, headers: map<string, string>, header: string)
    ensures var r, range := Served(Response(200, headers, Some(file)), Some(header)), ParseByteRange(Some(header), |file|);
      match range
      case Satisfiable(start, end) => IsPiece(r, file, headers, start, end)
      case Unsatisfiable => IsRefusal(r, file, headers)
      case NoRange => IsWhole(r, file, headers)
  {
    var range := ParseByteRange(Some(header), |file|);
    InsideFile(Some(header), |file|);
    hide ParseByteRange, Piece, Refusal, IsPiece, IsRefusal;
    if range.Satisfiable? {
      PieceSpelledOut(file, headers, range.start, range.end);
    }
    RefusalSpelledOut(file, headers);
  }

  /** A range that names positions, by numbers the program can hold, is answered with exactly
      those positions; one that starts behind the end is refused; for any other the whole file
      is sent. */
  lemma AnswersExactly(file: Bytes, headers: map<string, string>, header: string, first: string, last: string)
    requires AllDigits(first) && AllDigits(last) && Trim(header) == RangeText(first, last)
    ensures var r := Served(Response(200, headers, Some(file)), Some(header));
      if Fits(first) && Fits(last) && NamesOne(first, last, |file|) then
        exists start: nat, end: nat | IsPiece(r, file, headers, start, end) ::
          forall i: nat :: start <= i <= end <==> Names(first, last, |file|, i)
      else if first != [] && Fits(first) && 0 < |file| <= Value(first) then IsRefusal(r, file, headers)
      else IsWhole(r, file, headers)
  {
    hide *;
    ParsesRange(header, first, last, |file|);
    AnswersParsed(file, headers, header);
  }

  /** Whatever is no such range is answered with the whole file. */
  lemma NoRangeIsWhole(file: Bytes, headers: map<string, string>, header: string)
    requires forall first, last | AllDigits(first) && AllDigits(last) :: Trim(header) != RangeText(first, last)
    ensures IsWhole(Served(Response(200, headers, Some(file)), Some(header)), file, headers)
  {
    hide Trim, RawStart, RawEnd, RangeText;
    if IsRange(Trim(header)) {
      RangeTexts(Trim(header));
    }
  }

  /** An answer that is no whole file is passed on; a request without a range gets the file. */
  lemma PassesOn(upstream: Response, header: Option<string>)
    ensures upstream.status != 200 ==> Served(upstream, header) == upstream
    ensures upstream.status == 200 && header.None? ==>
      Served(upstream, header) == Response(200, upstream.headers["accept-ranges" := "bytes"], upstream.body)
    ensures upstream.status == 200 && upstream.body.None? && header.Some? ==>
      Served(upstream, header) == Response(200, upstream.headers["accept-ranges" := "bytes"], Some([]))
  {
    hide Trim, IsRange;
  }

  class Headers {
    var fields: map<string, string>

    constructor (fields: map<string, string>)
      ensures this.fields == fields
    {
      this.fields := fields;
    }

    method Set(name: string, value: string)
      modifies this
      ensures fields == old(fields)[name := value]
    {
      fields := fields[name := value];
    }
  }

  method CopyHeaders(from: map<string, string>, to: Headers)
    requires to.fields == map[]
    modifies to
    ensures to.fields == Copied(from)
  {
    for k := 0 to |COPIED_HEADERS|
      invariant to.fields == map name | name in COPIED_HEADERS[..k] && name in from :: from[name]
    {
      var name := COPIED_HEADERS[k];
      assert COPIED_HEADERS[..k + 1] == COPIED_HEADERS[..k] + [name];
      if name in from {
        to.Set(name, from[name]);
      }
    }
    assert COPIED_HEADERS[..|COPIED_HEADERS|] == COPIED_HEADERS;
  }

  method ServeRange(upstream: Response, rangeHeader: Option<string>) returns (r: Response)
    ensures r == Served(upstream, rangeHeader)
  {
    if upstream.status != 200 {
      return upstream;
    }
    if rangeHeader.None? {
      var headers := new Headers(upstream.headers);
      headers.Set("accept-ranges", "bytes");
      return Response(200, headers.fields, upstream.body);
    }
    var body := if upstream.body.Some? then upstream.body.value else [];
    var result := ParseByteRange(rangeHeader, |body|);
    hide ParseByteRange, Numeral, Copied, ContentRangeValue, UnsatisfiedRangeValue;
    InsideFile(rangeHeader, |body|);
    match result {
      case NoRange =>
        var headers := new Headers(upstream.headers);
        headers.Set("accept-ranges", "bytes");
        return Response(200, headers.fields, Some(body));
      case Unsatisfiable =>
        var headers := new Headers(map[]);
        CopyHeaders(upstream.headers, headers);
        headers.Set("accept-ranges", "bytes");
        headers.Set("content-range", UnsatisfiedRangeValue(|body|));
        return Response(416, headers.fields, None);
      case Satisfiable(start, end) =>
        var slice := body[start..end + 1];
        var headers := new Headers(map[]);
        CopyHeaders(upstream.headers, headers);
        headers.Set("accept-ranges", "bytes");
        headers.Set("content-range", ContentRangeValue(start, end, |body|));
        headers.Set("content-length", Numeral(|slice|));
        return Response(206, headers.fields, Some(slice));
    }
  }

  // ---- A client that reads a file piece by piece ----

  function Ask(file: Bytes, headers: map<string, string>, from: nat, chunk: nat): Response
    requires chunk > 0
  {
    Served(Response(200, headers, Some(file)), Some(RangeText(Numeral(from), Numeral(from + chunk - 1))))
  }

  lemma ParseAsked(from: nat, to: nat, size: nat)
    requires from <= to
    ensures var r := ParseByteRange(Some(RangeText(Numeral(from), Numeral(to))), size);
      || (r == NoRange && (size == 0 || to > 9_007_199_254_740_991))
      || r == (if from >= size then Unsatisfiable else Satisfiable(from, if to < size then to else size - 1))
  {
    NumeralValue(from);
    NumeralValue(to);
    RangeTextParts(Numeral(from), Numeral(to));
    hide Numeral, Value, Trim, IsRange, RawStart, RawEnd, RangeText;
  }

  lemma AskedPiece(file: Bytes, headers: map<string, string>, from: nat, chunk: nat)
    requires chunk > 0
    ensures var r := Ask(file, headers, from, chunk);
      && r.status in {200, 206, 416}
      && (r.status == 200 ==> r.body == Some(file))
      && (r.status == 416 ==> from >= |file|)
      && (from + chunk <= 9_007_199_254_740_992 && file != [] ==> r.status == if from < |file| then 206 else 416)
      && (r.status == 206 ==> from < |file| && r.body == Some(file[from..if from + chunk <= |file| then from + chunk else |file|]))
  {
    ParseAsked(from, from + chunk - 1, |file|);
    hide ParseByteRange, Numeral, RangeText, Copied, ContentRangeValue, UnsatisfiedRangeValue;
  }

  /** What the client has after asking for one piece after the other until it is told that
      there is no more; a reply with the whole file ends the reading. */
  function Fetch(file: Bytes, headers: map<string, string>, from: nat, chunk: nat, got: Bytes): Bytes
    requires chunk > 0
    decreases if from <= |file| then |file| - from else 0
  {
    var r := Ask(file, headers, from, chunk);
    AskedPiece(file, headers, from, chunk);
    if r.status == 206 then Fetch(file, headers, from + chunk, chunk, got + r.body.value)
    else if r.status == 200 then r.body.value
    else got
  }

  /** Whatever the size of the pieces, the client ends up with the file. */
  lemma {:induction false} FetchesTheFile(file: Bytes, headers: map<string, string>, from: nat, chunk: nat, got: Bytes)
    requires chunk > 0 && got == file[..if from <= |file| then from else |file|]
    ensures Fetch(file, headers, from, chunk, got) == file
    decreases if from <= |file| then |file| - from else 0
  {
    hide Ask;
    var r := Ask(file, headers, from, chunk);
    AskedPiece(file, headers, from, chunk);
    if r.status == 206 {
      FetchesTheFile(file, headers, from + chunk, chunk, got + r.body.value);
    }
  }
}
