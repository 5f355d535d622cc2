/** `process_socket` as the loop it is: frames are taken off the input buffer one
    by one, replies are written to the output buffer, and the context holds the
    id counter and the checksum setting (mongowire/src/api/mod.rs,
    mongowire/src/api/client_info.rs). */
module ConnectionLoop {
  import opened Bytes
  import opened OpMsgCodec
  import opened LegacyCodec
  import opened Messages
  import opened Framing
  import opened Connection
  import opened Buffer
  import opened FramingLoops

  class ConnectionInfo {
    var counter: i32
    var checksum: bool

    constructor (withChecksum: bool)
      ensures counter == 0 && checksum == withChecksum
    {
      counter := 0;
      checksum := withChecksum;
    }

    method NextRequestId() returns (id: i32)
      modifies this
      ensures id == old(counter) && counter == Wrap32(old(counter) + 1) && checksum == old(checksum)
      ensures (counter - old(counter) - 1) % 0x1_0000_0000 == 0
    {
      id := counter;
      WrapIsCongruent(counter + 1);
      counter := Wrap32(counter + 1);
    }
  }

  /** The connection as the steps see it. */
  ghost function View(ctx: ConnectionInfo, sent: seq<Sent>, open: bool): Conn
    reads ctx
  {
    Conn(ctx.counter, ctx.checksum, sent, open)
  }

  lemma SentSnoc(sent: seq<Sent>, s: Sent, crc: Crc)
    ensures SentBytes(sent + [s], crc) == SentBytes(sent, crc) + FrameBytes(s.header, s.body, s.trailer, crc)
  {
    hide FrameBytes;
    assert (sent + [s])[..|sent|] == sent;
  }

  method SendReply(ctx: ConnectionInfo, out: ByteBuffer, ghost sent: seq<Sent>, ghost index: nat,
                   responseTo: i32, body: MessageBody, crc: Crc)
    returns (open: bool, ghost sent': seq<Sent>)
    requires out.data == SentBytes(sent, crc)
    modifies ctx, out
    ensures View(ctx, sent', open) == Send(old(View(ctx, sent, true)), index, responseTo, body)
    ensures out.data == SentBytes(sent', crc)
  {
    hide SentBytes, FrameBytes, FrameLen, BodyOpcode, Wrap32;
    var id := ctx.NextRequestId();
    var header := Header(0, id, responseTo, BodyOpcode(body));
    sent' := sent;
    if ctx.checksum && body.MsgBody? {
      var frame := new ByteBuffer();
      var written := WriteMessage(header, body, true, crc, frame);
      if written.Err? {
        return false, sent;
      }
      ghost var s := Sent(index, written.value, body, true);
      SentSnoc(sent, s, crc);
      sent' := sent + [s];
      out.PutBytes(frame.data);
    } else {
      var written := WriteMessage(header, body, false, crc, out);
      if written.Err? {
        return false, sent;
      }
      ghost var s := Sent(index, written.value, body, false);
      SentSnoc(sent, s, crc);
      sent' := sent + [s];
    }
    open := true;
  }

  method AnswerQuery(ctx: ConnectionInfo, out: ByteBuffer, ghost sent: seq<Sent>, ghost index: nat,
                     responseTo: i32, q: OpQuery, e: Effect, crc: Crc)
    returns (open: bool, ghost sent': seq<Sent>)
    requires out.data == SentBytes(sent, crc)
    modifies ctx, out
    ensures View(ctx, sent', open) == Settle(old(View(ctx, sent, true)), index, responseTo, JudgeQuery(q, e))
    ensures out.data == SentBytes(sent', crc)
  {
    hide SentBytes, Send, CommandName, IsHello, ErrorReply;
    var name := CommandName(q.query);
    if name.Err? {
      return false, sent;
    }
    if !IsHello(name.value) {
      var reply := ErrorReply(ONLY_HELLO, true);
      if reply == None {
        return true, sent;
      }
      open, sent' := SendReply(ctx, out, sent, index, responseTo, reply.value, crc);
      return;
    }
    if e.hello == None {
      return false, sent;
    }
    open, sent' := SendReply(ctx, out, sent, index, responseTo, QueryReply(AWAIT_CAPABLE, e.hello.value), crc);
  }

  /** The reply half of a step. */
  ghost function Settle(c: Conn, index: nat, responseTo: i32, v: Verdict): Conn {
    match v
    case Silent => c
    case Hangup => c.(open := false)
    case Respond(body) => Send(c, index, responseTo, body)
  }

  method AnswerMsg(ctx: ConnectionInfo, out: ByteBuffer, ghost sent: seq<Sent>, ghost index: nat,
                   responseTo: i32, m: OpMsg, e: Effect, crc: Crc)
    returns (open: bool, ghost sent': seq<Sent>)
    requires out.data == SentBytes(sent, crc)
    modifies ctx, out
    ensures View(ctx, sent', open) ==
            Settle(Handled(old(View(ctx, sent, true)), m, e), index, responseTo, JudgeMsg(m, e))
    ensures out.data == SentBytes(sent', crc)
  {
    hide SentBytes, Send, CommandName, ErrorReply, Wrap32;
    var name := CommandName(m.sections.body);
    if name.Err? {
      return false, sent;
    }
    ctx.counter := Wrap32(ctx.counter + e.drawn);
    ctx.checksum := e.checksum;
    if m.flags.moreToCome {
      return true, sent;
    }
    match e.result {
      case Answer(reply) =>
        open, sent' := SendReply(ctx, out, sent, index, responseTo, MsgBody(reply), crc);
      case NoReply =>
        return true, sent;
      case ProtocolFailure =>
        return false, sent;
      case Refused(error) =>
        var reply := ErrorReply(error, false);
        if reply == None {
          return false, sent;
        }
        open, sent' := SendReply(ctx, out, sent, index, responseTo, reply.value, crc);
    }
  }

  /** The handler's mark, for an OP_MSG. */
  ghost function Handled(c: Conn, m: OpMsg, e: Effect): Conn {
    if CommandName(m.sections.body).Ok? then c.(nextId := Wrap32(c.nextId + e.drawn), checksum := e.checksum) else c
  }

  method Dispatch(ctx: ConnectionInfo, out: ByteBuffer, ghost sent: seq<Sent>, ghost index: nat,
                  header: Header, body: MessageBody, e: Effect, maxLen: i32, crc: Crc)
    returns (open: bool, ghost sent': seq<Sent>)
    requires out.data == SentBytes(sent, crc)
    modifies ctx, out
    ensures View(ctx, sent', open) == Step(old(View(ctx, sent, true)), index, (header, body), e, maxLen)
    ensures out.data == SentBytes(sent', crc)
  {
    hide SentBytes, Send, JudgeQuery, JudgeMsg, CommandName, Unwrap, Wrap32;
    var request := body;
    if body.CompressedBody? {
      var unwrapped := Unwrap(body.compressed, maxLen);
      if unwrapped.Err? {
        return false, sent;
      }
      request := unwrapped.value;
    }
    match request {
      case QueryBody(q) =>
        open, sent' := AnswerQuery(ctx, out, sent, index, header.requestId, q, e, crc);
      case MsgBody(m) =>
        open, sent' := AnswerMsg(ctx, out, sent, index, header.requestId, m, e, crc);
      case ReplyBody(_) =>
        return true, sent;
      case CompressedBody(_) =>
        return false, sent;
    }
  }

  lemma {:induction false} ClosedForGood(w: Session, i: nat, n: nat)
    requires i <= n <= |w.inbox| && !After(w, i).open
    ensures After(w, n) == After(w, i)
    decreases n
  {
    hide Judge, Touched;
    if i < n {
      ClosedForGood(w, i, n - 1);
    }
  }

  /** Everything a connection receives, by its frames. */
  ghost function FramesOf(input: bytes, maxLen: i32, crc: Crc): Inbox {
    Drain(input, maxLen, crc).messages
  }

  lemma NextFrame(buf: bytes, maxLen: i32, crc: Crc)
    ensures match ParseMessage(buf, maxLen, crc)
            case Message(h, b, rest) =>
              FramesOf(buf, maxLen, crc) == [(h, b)] + FramesOf(rest, maxLen, crc) && |rest| < |buf|
            case _ => FramesOf(buf, maxLen, crc) == []
  {
    hide ParseMessage;
    if ParseMessage(buf, maxLen, crc).Message? {
      MessageConsumes(buf, maxLen, crc);
    }
  }

  /** The loop over all bytes a client sends: the replies written are exactly
      those of the step machine on the frames the bytes hold. */
  method ProcessSocket(input: ByteBuffer, out: ByteBuffer, checksum: bool, maxLen: i32, env: Env, crc: Crc)
    requires input != out && out.data == []
    modifies input, out
    ensures var inbox := FramesOf(old(input.data), maxLen, crc);
            out.data == SentBytes(After(Session(checksum, maxLen, inbox, env), |inbox|).sent, crc)
  {
    hide SentBytes, Step, ParseMessage, Drain, FramesOf;
    var ctx := new ConnectionInfo(checksum);
    ghost var w := Session(checksum, maxLen, FramesOf(input.data, maxLen, crc), env);
    ghost var sent: seq<Sent> := [];
    var i := 0;
    NothingSent(crc);
    while true
      invariant i <= |w.inbox|
      invariant w.inbox[i..] == FramesOf(input.data, maxLen, crc)
      invariant View(ctx, sent, true) == After(w, i)
      invariant out.data == SentBytes(sent, crc)
      decreases |input.data|
    {
      NextFrame(input.data, maxLen, crc);
      var item := ReadMessage(input, maxLen, crc);
      if item.Err? || item.value == None {
        assert i == |w.inbox|;
        return;
      }
      var (header, body) := item.value.value;
      assert w.inbox[i] == (header, body);
      assert w.inbox[i..][1..] == w.inbox[i + 1..];
      var open;
      open, sent := Dispatch(ctx, out, sent, i, header, body, env(i), maxLen, crc);
      i := i + 1;
      if !open {
        ClosedForGood(w, i, |w.inbox|);
        return;
      }
    }
  }

  lemma NothingSent(crc: Crc)
    ensures SentBytes([], crc) == []
  {
  }
}
