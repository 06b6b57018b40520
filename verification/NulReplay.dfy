/**
 Buffering a request body and replaying it (src/cii_platform/api/nul_guard.py): the guard
 reads the body to its end, and the application behind it reads the same body again.
 */
module NulReplay {
  import opened Prelude
  import opened Json
  import opened NulFilter

  /** What a server hands to an application: a piece of the body, or another event such as
      a disconnect. */
  datatype Message = Request(body: seq<Byte>, more: bool) | Disconnect

  /** The body that reading a stream of messages gives: the pieces up to the last one, or
      None when another event or the end of the stream comes first. */
  function BodyOf(stream: seq<Message>): Option<seq<Byte>> {
    if stream == [] || stream[0].Disconnect? then None
    else if !stream[0].more then Some(stream[0].body)
    else match BodyOf(stream[1..])
      case None => None
      case Some(rest) => Some(stream[0].body + rest)
  }

  /** What is left of a stream after its body has been read. */
  function AfterBody(stream: seq<Message>): seq<Message> {
    if stream == [] then []
    else if stream[0].Disconnect? || !stream[0].more then stream[1..]
    else AfterBody(stream[1..])
  }

  /** The body ends or is cut off somewhere in the stream. */
  predicate Ends(stream: seq<Message>) {
    stream != [] && (stream[0].Disconnect? || !stream[0].more || Ends(stream[1..]))
  }

  // ---- Pieces of a body ----

  /** Positions at which a byte string is cut, its two ends with them. */
  predicate AreCuts(cuts: seq<nat>, n: nat) {
    |cuts| >= 2 && cuts[0] == 0 && cuts[|cuts| - 1] == n && forall i, j | 0 <= i <= j < |cuts| :: cuts[i] <= cuts[j]
  }

  /** The pieces between the cuts, all but the last one announcing more. */
  predicate ArePieces(stream: seq<Message>, b: seq<Byte>, cuts: seq<nat>)
    requires AreCuts(cuts, |b|)
  {
    |stream| == |cuts| - 1
    && forall k | 0 <= k < |stream| :: stream[k] == Request(b[cuts[k]..cuts[k + 1]], k < |stream| - 1)
  }

  /** However a byte string is cut into pieces, they give the byte string, and what comes
      after them is left. */
  lemma PiecesGiveTheBody(pieces: seq<Message>, b: seq<Byte>, cuts: seq<nat>, rest: seq<Message>)
    requires AreCuts(cuts, |b|) && ArePieces(pieces, b, cuts)
    ensures BodyOf(pieces + rest) == Some(b) && AfterBody(pieces + rest) == rest
  {
    PiecesFrom(pieces, b, cuts, rest, 0);
    assert pieces[0..] == pieces && b[0..] == b;
  }

  lemma {:induction false} PiecesFrom(pieces: seq<Message>, b: seq<Byte>, cuts: seq<nat>, rest: seq<Message>, k: nat)
    requires AreCuts(cuts, |b|) && ArePieces(pieces, b, cuts) && k < |pieces|
    ensures BodyOf(pieces[k..] + rest) == Some(b[cuts[k]..]) && AfterBody(pieces[k..] + rest) == rest
    decreases |pieces| - k
  {
    var stream := pieces[k..] + rest;
    assert stream[0] == pieces[k];
    if k + 1 < |pieces| {
      PiecesFrom(pieces, b, cuts, rest, k + 1);
      assert stream[1..] == pieces[k + 1..] + rest;
      assert b[cuts[k]..] == b[cuts[k]..cuts[k + 1]] + b[cuts[k + 1]..];
    } else {
      assert stream[1..] == rest;
      assert b[cuts[k]..] == b[cuts[k]..cuts[k + 1]];
    }
  }

  /** A stream gives a body only if it begins with its pieces. */
  lemma {:induction false} BodyIsInPieces(stream: seq<Message>) returns (n: nat, cuts: seq<nat>)
    requires BodyOf(stream).Some?
    ensures n <= |stream| && AreCuts(cuts, |BodyOf(stream).value|) && ArePieces(stream[..n], BodyOf(stream).value, cuts)
  {
    var b, first := BodyOf(stream).value, stream[0].body;
    if !stream[0].more {
      n, cuts := 1, [0, |b|];
    } else {
      var m, later := BodyIsInPieces(stream[1..]);
      n, cuts := m + 1, [0] + seq(|later|, k requires 0 <= k < |later| => |first| + later[k]);
      var rest := BodyOf(stream[1..]).value;
      assert b == first + rest;
      forall k | 0 <= k < n
        ensures stream[k] == Request(b[cuts[k]..cuts[k + 1]], k < n - 1)
      {
        if k > 0 {
          assert stream[k] == stream[1..][..m][k - 1];
          assert b[cuts[k]..cuts[k + 1]] == rest[later[k - 1]..later[k]];
        }
      }
    }
  }

  /** A stream that breaks off before the last piece gives no body, and what comes after the
      break is left. */
  lemma {:induction false} CutOff(pieces: seq<Message>, rest: seq<Message>)
    requires forall k | 0 <= k < |pieces| :: pieces[k].Request? && pieces[k].more
    ensures BodyOf(pieces + [Disconnect] + rest) == None && AfterBody(pieces + [Disconnect] + rest) == rest
  {
    var stream := pieces + [Disconnect] + rest;
    if pieces == [] {
      assert stream[1..] == rest;
    } else {
      CutOff(pieces[1..], rest);
      assert stream[1..] == pieces[1..] + [Disconnect] + rest;
    }
  }

  /** The server's side: messages in order. */
  class Channel {
    const messages: seq<Message>
    var next: nat

    ghost predicate Valid()
      reads this
    {
      next <= |messages|
    }

    ghost function Ahead(): seq<Message>
      reads this
      requires Valid()
    {
      messages[next..]
    }

    constructor (messages: seq<Message>)
      ensures Valid() && Ahead() == messages
    {
      this.messages := messages;
      next := 0;
    }

    method Receive() returns (m: Message)
      requires Valid() && Ahead() != []
      modifies this
      ensures Valid() && old(Ahead()) == [m] + Ahead()
    {
      m := messages[next];
      next := next + 1;
    }
  }

  /** The application's side: a pending message first, then the server's channel. */
  class Replay {
    var pending: seq<Message>
    const inner: Channel

    ghost predicate Valid()
      reads this, inner
    {
      |pending| <= 1 && inner.Valid()
    }

    ghost function Ahead(): seq<Message>
      reads this, inner
      requires Valid()
    {
      pending + inner.Ahead()
    }

    constructor (pending: seq<Message>, inner: Channel)
      requires |pending| <= 1 && inner.Valid()
      ensures Valid() && Ahead() == pending + inner.Ahead()
      ensures this.inner == inner
    {
      this.pending := pending;
      this.inner := inner;
    }

    method Receive() returns (m: Message)
      requires Valid() && Ahead() != []
      modifies this, inner
      ensures Valid() && old(Ahead()) == [m] + Ahead()
    {
      if pending != [] {
        m := pending[|pending| - 1];
        pending := pending[..|pending| - 1];
      } else {
        m := inner.Receive();
      }
    }
  }

  function Joined(chunks: seq<seq<Byte>>): seq<Byte> {
    if chunks == [] then [] else Joined(chunks[..|chunks| - 1]) + chunks[|chunks| - 1]
  }

  /** Reads the body to its end; `first` is what the application is to be given first. */
  method BufferBody(receive: Channel) returns (body: seq<Byte>, first: Message)
    requires receive.Valid() && Ends(receive.Ahead())
    modifies receive
    ensures receive.Valid() && receive.Ahead() == AfterBody(old(receive.Ahead()))
    ensures match BodyOf(old(receive.Ahead()))
            case Some(b) => body == b && first == Request(b, false)
            case None => body == [] && first == Disconnect
  {
    var chunks: seq<seq<Byte>> := [];
    assert forall rest: seq<Byte> :: [] + rest == rest;
    while true
      invariant receive.Valid() && Ends(receive.Ahead())
      invariant AfterBody(receive.Ahead()) == AfterBody(old(receive.Ahead()))
      invariant BodyOf(old(receive.Ahead())) == match BodyOf(receive.Ahead())
        case None => None
        case Some(rest) => Some(Joined(chunks) + rest)
      decreases |receive.Ahead()|
    {
      ghost var before := receive.Ahead();
      var message := receive.Receive();
      assert before[0] == message && before[1..] == receive.Ahead();
      if message.Disconnect? {
        return [], message;
      }
      ghost var joined := Joined(chunks);
      chunks := chunks + [message.body];
      assert Joined(chunks) == joined + message.body by {
        assert chunks == chunks[..|chunks| - 1] + [message.body];
      }
      if !message.more {
        break;
      }
      assert forall rest :: joined + (message.body + rest) == joined + message.body + rest;
    }
    body := Joined(chunks);
    first := Request(body, false);
  }

  /** The guard in front of the application: a field to reject, or the stream the
      application reads. A NUL in path or query is found before the body is touched. */
  method Handle(urlField: Option<Text>, isJson: bool, receive: Channel, parserDepth: nat, scanDepth: nat)
      returns (field: Option<Text>, app: Replay)
    requires receive.Valid() && (urlField.None? && isJson ==> Ends(receive.Ahead()))
    modifies receive
    ensures app.Valid() && app.inner == receive
    ensures urlField.Some? ==> field == urlField
    ensures urlField.None? && !isJson ==> field.None?
    ensures urlField.None? && isJson ==> field == match BodyOf(old(receive.Ahead()))
      case None => None
      case Some(body) => NulInBody(body, parserDepth, scanDepth)
    ensures urlField.None? && isJson && BodyOf(old(receive.Ahead())).Some? ==>
              Answers(BodyOf(old(receive.Ahead())).value, parserDepth, scanDepth, field)
    ensures BodyOf(app.Ahead()) == BodyOf(old(receive.Ahead()))
    ensures AfterBody(app.Ahead()) == AfterBody(old(receive.Ahead()))
    ensures !isJson ==> app.Ahead() == old(receive.Ahead())
  {
    field := urlField;
    app := new Replay([], receive);
    assert app.Ahead() == receive.Ahead();
    if field.None? && isJson {
      var body, first := BufferBody(receive);
      app := new Replay([first], receive);
      field := Guarded(body, parserDepth, scanDepth);
      FilterChangesNothing(body, parserDepth, scanDepth);
      RejectsExactly(body, parserDepth, scanDepth);
      assert app.Ahead()[1..] == receive.Ahead();
      if first.Disconnect? {
        EmptyBody(parserDepth, scanDepth);
      }
    }
  }

  lemma EmptyBody(parserDepth: nat, scanDepth: nat)
    ensures NulInBody([], parserDepth, scanDepth) == None
  {
  }
}
