/** What every run of the connection loop guarantees: which requests are
    answered, in what order, under which ids, and what the peer reads
    (mongowire/src/api/mod.rs). */
module ConnectionTheorems {
  import opened Bytes
  import opened BsonModel
  import opened OpMsgCodec
  import opened LegacyCodec
  import opened Messages
  import opened Framing
  import opened RawValue
  import opened Connection

  // ------------------------------------------------------------ the reference

  function VerdictAt(w: Session, i: nat): Verdict
    requires i < |w.inbox|
  {
    Judge(w.inbox[i].1, w.env(i), w.maxLen)
  }

  /** The checksum setting the last handler left. */
  function ChecksumAt(w: Session, n: nat): bool
    requires n <= |w.inbox|
  {
    if n == 0 then w.checksum
    else if HandlerRuns(w.inbox[n - 1].1, w.maxLen) then w.env(n - 1).checksum
    else ChecksumAt(w, n - 1)
  }

  /** The ids handlers drew for themselves. */
  function DrawsAt(w: Session, n: nat): nat
    requires n <= |w.inbox|
  {
    if n == 0 then 0
    else DrawsAt(w, n - 1) + if HandlerRuns(w.inbox[n - 1].1, w.maxLen) then w.env(n - 1).drawn else 0
  }

  predicate TrailerAt(w: Session, i: nat)
    requires i < |w.inbox|
  {
    ChecksumAt(w, i + 1) && VerdictAt(w, i).Respond? && VerdictAt(w, i).body.MsgBody?
  }

  /** Request `i` ends the connection: it is malformed, its handler reports a
      protocol failure, or its reply has no encoding. */
  predicate Fatal(w: Session, i: nat)
    requires i < |w.inbox|
  {
    var v := VerdictAt(w, i);
    v.Hangup? || (v.Respond? && !Encodable(v.body, TrailerAt(w, i)))
  }

  /** Request `i` gets a reply: it calls for one and nothing up to it is fatal. */
  predicate Answered(w: Session, i: nat)
    requires i < |w.inbox|
  {
    VerdictAt(w, i).Respond? && Alive(w, i + 1)
  }

  predicate Alive(w: Session, n: nat)
    requires n <= |w.inbox|
  {
    n == 0 || (Alive(w, n - 1) && !Fatal(w, n - 1))
  }

  /** The reply to request `i` when `a` replies went before it. */
  function ReplyTo(w: Session, a: nat, i: nat): Sent
    requires i < |w.inbox| && VerdictAt(w, i).Respond? && !Fatal(w, i)
  {
    var body, trailer := VerdictAt(w, i).body, TrailerAt(w, i);
    var id := Wrap32(a + DrawsAt(w, i + 1));
    Sent(i, Header(FrameLen(body, trailer), id, w.inbox[i].0.requestId, BodyOpcode(body)), body, trailer)
  }

  predicate IsReplyTo(w: Session, a: nat, s: Sent) {
    s.index < |w.inbox| && Answered(w, s.index) && s == ReplyTo(w, a, s.index)
  }

  /** The connection after `n` requests: it is open exactly while nothing fatal
      has come, and the replies are exactly those of the answered requests, in
      request order, one each. */
  ghost predicate Faithful(w: Session, n: nat, c: Conn)
    requires n <= |w.inbox|
  {
    && (c.open <==> Alive(w, n))
    && (c.open ==> c.nextId == Wrap32(|c.sent| + DrawsAt(w, n)) && c.checksum == ChecksumAt(w, n))
    && (forall a :: 0 <= a < |c.sent| ==> c.sent[a].index < n && IsReplyTo(w, a, c.sent[a]))
    && (forall a, b :: 0 <= a < b < |c.sent| ==> c.sent[a].index < c.sent[b].index)
    && (forall i :: 0 <= i < n && Answered(w, i) ==> exists a :: 0 <= a < |c.sent| && c.sent[a].index == i)
  }

  lemma WrapSum(x: int, y: int)
    ensures Wrap32(Wrap32(x) + y) == Wrap32(x + y)
  {
    var m := 0x1_0000_0000;
    var low := x % m;
    assert x == x / m * m + low;
    WrapShift(low + y, x / m);
    WrapShift(low + y, -1);
  }

  lemma OpenStep(w: Session, n: nat, c: Conn)
    requires n < |w.inbox| && c.open
    requires c.nextId == Wrap32(|c.sent| + DrawsAt(w, n)) && c.checksum == ChecksumAt(w, n)
    ensures var next := Step(c, n, w.inbox[n], w.env(n), w.maxLen);
            && next.open == !Fatal(w, n)
            && next.sent ==
               c.sent + (if VerdictAt(w, n).Respond? && !Fatal(w, n) then [ReplyTo(w, |c.sent|, n)] else [])
            && (next.open ==>
                  next.nextId == Wrap32(|next.sent| + DrawsAt(w, n + 1)) && next.checksum == ChecksumAt(w, n + 1))
  {
    hide Judge, HandlerRuns, Wrap32, FrameLen;
    WrapSum(|c.sent| + DrawsAt(w, n), w.env(n).drawn);
    WrapSum(|c.sent| + DrawsAt(w, n + 1), 1);
    var c' := Touched(c, w.inbox[n].1, w.env(n), w.maxLen);
    assert c'.nextId == Wrap32(|c.sent| + DrawsAt(w, n + 1)) && c'.checksum == ChecksumAt(w, n + 1);
  }

  lemma FaithfulStep(w: Session, n: nat, c: Conn)
    requires n < |w.inbox| && Faithful(w, n, c)
    ensures Faithful(w, n + 1, Step(c, n, w.inbox[n], w.env(n), w.maxLen))
  {
    hide Judge, Step, Wrap32, Fatal, VerdictAt, DrawsAt, ChecksumAt, ReplyTo;
    if c.open {
      OpenStep(w, n, c);
      ReplyIndex(w, n, |c.sent|);
      var next := Step(c, n, w.inbox[n], w.env(n), w.maxLen);
      assert forall a :: 0 <= a < |c.sent| ==> next.sent[a] == c.sent[a];
      forall i | 0 <= i < n + 1 && Answered(w, i)
        ensures exists a :: 0 <= a < |next.sent| && next.sent[a].index == i
      {
        if i < n {
          var a :| 0 <= a < |c.sent| && c.sent[a].index == i;
          assert next.sent[a].index == i;
        } else {
          assert next.sent[|c.sent|].index == n;
        }
      }
    } else {
      ClosedStep(c, n, w.inbox[n], w.env(n), w.maxLen);
    }
  }

  lemma ReplyIndex(w: Session, i: nat, a: nat)
    requires i < |w.inbox|
    ensures VerdictAt(w, i).Respond? && !Fatal(w, i) ==> ReplyTo(w, a, i).index == i
  {
  }

  lemma ClosedStep(c: Conn, index: nat, message: (Header, MessageBody), effect: Effect, maxLen: i32)
    requires !c.open
    ensures Step(c, index, message, effect, maxLen) == c
  {
    hide Judge, Touched;
  }

  lemma FaithfulStart(w: Session)
    ensures Faithful(w, 0, Conn(0, w.checksum, [], true))
  {
    hide Judge, HandlerRuns;
  }

  /** Over every run of the loop with any handler. */
  lemma {:induction false} EveryRunIsFaithful(w: Session, n: nat)
    requires n <= |w.inbox|
    ensures Faithful(w, n, After(w, n))
  {
    hide Step, Faithful;
    if n == 0 {
      FaithfulStart(w);
    } else {
      EveryRunIsFaithful(w, n - 1);
      FaithfulStep(w, n - 1, After(w, n - 1));
    }
  }

  lemma {:induction false} FatalIsFinal(w: Session, i: nat, n: nat)
    requires i < n <= |w.inbox| && Fatal(w, i)
    ensures !Alive(w, n)
    decreases n
  {
    hide Fatal;
    if i < n - 1 {
      FatalIsFinal(w, i, n - 1);
    }
  }

  predicate MoreToCome(w: Session, i: nat)
    requires i < |w.inbox|
  {
    var request := Unwrapped(w.inbox[i].1, w.maxLen);
    request.Ok? && request.value.MsgBody? && request.value.msg.flags.moreToCome
  }

  lemma MoreToComeIsSilent(w: Session, i: nat)
    requires i < |w.inbox| && MoreToCome(w, i)
    ensures !VerdictAt(w, i).Respond?
  {
    hide CommandName, Unwrapped, ErrorReply;
  }

  lemma {:induction false} NoDraws(w: Session, n: nat)
    requires n <= |w.inbox| && forall i :: 0 <= i < n ==> w.env(i).drawn == 0
    ensures DrawsAt(w, n) == 0
  {
    hide HandlerRuns;
    if n > 0 {
      NoDraws(w, n - 1);
    }
  }

  /** The replies of a whole run: in request order, at most one per request,
      each under its request's id, none to a `moreToCome` message, none at or
      after a fatal request, and numbered from 0 with 32-bit wraparound when the
      handler draws no ids of its own. */
  lemma RepliesKeepOrder(w: Session)
    ensures var sent := After(w, |w.inbox|).sent;
            && (forall a, b :: 0 <= a < b < |sent| ==> sent[a].index < sent[b].index)
            && (forall a :: 0 <= a < |sent| ==>
                  && sent[a].index < |w.inbox|
                  && sent[a].header.responseTo == w.inbox[sent[a].index].0.requestId
                  && !MoreToCome(w, sent[a].index))
            && (forall a, i :: 0 <= a < |sent| && 0 <= i < |w.inbox| && Fatal(w, i) ==> sent[a].index < i)
            && ((forall i :: 0 <= i < |w.inbox| ==> w.env(i).drawn == 0) ==>
                  forall a :: 0 <= a < |sent| ==>
                    && sent[a].header.requestId == Wrap32(a)
                    && (sent[a].header.requestId - a) % 0x1_0000_0000 == 0)
  {
    hide Judge, HandlerRuns, After, VerdictAt, MoreToCome, Fatal, Wrap32;
    var c := After(w, |w.inbox|);
    EveryRunIsFaithful(w, |w.inbox|);
    forall a | 0 <= a < |c.sent|
      ensures !MoreToCome(w, c.sent[a].index)
    {
      assert IsReplyTo(w, a, c.sent[a]);
      if MoreToCome(w, c.sent[a].index) {
        MoreToComeIsSilent(w, c.sent[a].index);
      }
    }
    forall a, i | 0 <= a < |c.sent| && 0 <= i < |w.inbox| && Fatal(w, i)
      ensures c.sent[a].index < i
    {
      assert IsReplyTo(w, a, c.sent[a]);
      if i <= c.sent[a].index {
        FatalIsFinal(w, i, c.sent[a].index + 1);
      }
    }
    IdsCount(w);
  }

  /** Without draws of the handler's own, ids count the replies from 0. */
  lemma IdsCount(w: Session)
    ensures var sent := After(w, |w.inbox|).sent;
            (forall i :: 0 <= i < |w.inbox| ==> w.env(i).drawn == 0) ==>
              forall a :: 0 <= a < |sent| ==>
                && sent[a].header.requestId == Wrap32(a)
                && (sent[a].header.requestId - a) % 0x1_0000_0000 == 0
  {
    hide After, VerdictAt, Fatal, Wrap32, IsReplyTo, DrawsAt;
    var c := After(w, |w.inbox|);
    EveryRunIsFaithful(w, |w.inbox|);
    if forall i :: 0 <= i < |w.inbox| ==> w.env(i).drawn == 0 {
      forall a | 0 <= a < |c.sent|
        ensures c.sent[a].header.requestId == Wrap32(a) && (c.sent[a].header.requestId - a) % 0x1_0000_0000 == 0
      {
        IdOfReply(w, a, c.sent[a]);
        NoDraws(w, c.sent[a].index + 1);
        WrapIsCongruent(a);
      }
    }
  }

  lemma IdOfReply(w: Session, a: nat, s: Sent)
    requires IsReplyTo(w, a, s)
    ensures s.header.requestId == Wrap32(a + DrawsAt(w, s.index + 1))
  {
    hide VerdictAt, Fatal, Alive, Wrap32, DrawsAt, FrameLen, TrailerAt;
  }

  // ------------------------------------------------------------ what the peer reads

  /** A handler that answers with messages the parser accepts, and a handshake
      document that is one. */
  predicate Reasonable(e: Effect) {
    && (e.result.Answer? ==> WellFormedBody(MsgBody(e.result.msg)) && e.result.msg.checksum.None?)
    && (e.hello.Some? ==> ValidDocument(e.hello.value) && |e.hello.value| <= I32_MAX)
  }

  lemma ErrorReplyWellFormed(e: CommandError, toQuery: bool)
    requires ErrorReply(e, toQuery).Some?
    requires BodyLen(ErrorReply(e, toQuery).value) <= I32_MAX
    ensures WellFormedBody(ErrorReply(e, toQuery).value)
    ensures !toQuery ==> ErrorReply(e, toQuery).value.msg.checksum.None?
  {
    hide ErrorFields, FieldsBytes, EncodesFields, ValidDocument, Framed;
    FramedIsValid(FieldsBytes(ErrorFields(e)));
    BodyLenIsLength(ErrorReply(e, toQuery).value);
  }

  predicate Sendable(reply: MessageBody) {
    WellFormedBody(reply) && (reply.MsgBody? ==> reply.msg.checksum.None?)
  }

  lemma HelloSendable(doc: bytes)
    requires ValidDocument(doc) && |doc| <= I32_MAX
    ensures Sendable(QueryReply(AWAIT_CAPABLE, doc))
  {
    hide ValidDocument;
  }

  lemma QueryVerdict(q: OpQuery, effect: Effect)
    requires Reasonable(effect)
    requires JudgeQuery(q, effect).Respond? && BodyLen(JudgeQuery(q, effect).body) <= I32_MAX
    ensures Sendable(JudgeQuery(q, effect).body)
  {
    hide CommandName, ErrorReply, IsHello, WellFormedBody, ValidDocument, BodyLen, QueryReply;
    if IsHello(CommandName(q.query).value) {
      HelloSendable(effect.hello.value);
    } else {
      ErrorReplyWellFormed(ONLY_HELLO, true);
      ErrorReplyShape(ONLY_HELLO, true);
    }
  }

  lemma ErrorReplyShape(e: CommandError, toQuery: bool)
    requires ErrorReply(e, toQuery).Some?
    ensures if toQuery then ErrorReply(e, toQuery).value.ReplyBody? else ErrorReply(e, toQuery).value.MsgBody?
  {
    hide ErrorFields, EncodesValue, DocumentBytes;
  }

  lemma MsgVerdict(m: OpMsg, effect: Effect)
    requires Reasonable(effect)
    requires JudgeMsg(m, effect).Respond? && BodyLen(JudgeMsg(m, effect).body) <= I32_MAX
    ensures Sendable(JudgeMsg(m, effect).body)
  {
    hide CommandName, ErrorReply, WellFormedBody, ValidDocument, BodyLen;
    if effect.result.Refused? {
      ErrorReplyWellFormed(effect.result.error, false);
    }
  }

  lemma VerdictSendable(body: MessageBody, effect: Effect, maxLen: i32, trailer: bool)
    requires Reasonable(effect)
    requires Judge(body, effect, maxLen).Respond? && Encodable(Judge(body, effect, maxLen).body, trailer)
    ensures Sendable(Judge(body, effect, maxLen).body)
  {
    hide Unwrapped, JudgeQuery, JudgeMsg, Sendable, Reasonable, BodyLen;
    match Unwrapped(body, maxLen).value
    case QueryBody(q) => QueryVerdict(q, effect);
    case MsgBody(m) => MsgVerdict(m, effect);
  }

  /** The frames as the peer should see them. */
  function Seen(sent: seq<Sent>, crc: Crc): Inbox {
    if sent == [] then []
    else
      var last := sent[|sent| - 1];
      Seen(sent[..|sent| - 1], crc) + [(last.header, Received(last.header, last.body, last.trailer, crc))]
  }

  predicate Readable(s: Sent) {
    && Sendable(s.body)
    && s.header.opcode == BodyOpcode(s.body)
    && s.header.messageLength == FrameLen(s.body, s.trailer) <= MAX_MSG_LEN
    && (s.trailer ==> s.body.MsgBody?)
  }

  lemma DrainOne(s: Sent, maxLen: i32, crc: Crc)
    requires Readable(s) && MAX_MSG_LEN <= maxLen
    ensures Drain(FrameBytes(s.header, s.body, s.trailer, crc), maxLen, crc) ==
            Stream([(s.header, Received(s.header, s.body, s.trailer, crc))], [], None)
  {
    hide ParseMessage, FrameBytes, WellFormedBody, BodyOpcode, FrameLen;
    var frame := FrameBytes(s.header, s.body, s.trailer, crc);
    FrameRoundTrip(s.header, s.body, s.trailer, [], maxLen, crc);
    assert frame + [] == frame;
    EmptyWaits(maxLen, crc);
    assert Drain([], maxLen, crc) == Stream([], [], None);
  }

  lemma {:induction false} DrainSent(sent: seq<Sent>, maxLen: i32, crc: Crc)
    requires MAX_MSG_LEN <= maxLen && forall a :: 0 <= a < |sent| ==> Readable(sent[a])
    ensures Drain(SentBytes(sent, crc), maxLen, crc) == Stream(Seen(sent, crc), [], None)
  {
    hide Drain, FrameBytes, Readable, Received;
    if sent == [] {
      DrainNothing(maxLen, crc);
    } else {
      var last := sent[|sent| - 1];
      var frame := FrameBytes(last.header, last.body, last.trailer, crc);
      DrainSent(sent[..|sent| - 1], maxLen, crc);
      DrainThenFeed(SentBytes(sent[..|sent| - 1], crc), frame, maxLen, crc);
      assert [] + frame == frame;
      DrainOne(last, maxLen, crc);
    }
  }

  lemma DrainNothing(maxLen: i32, crc: Crc)
    ensures Drain([], maxLen, crc) == Stream([], [], None)
  {
    hide ParseMessage;
    EmptyWaits(maxLen, crc);
  }

  /** A peer that drains the connection reads exactly the replies, in order and
      to the last byte, with their headers, whatever the checksum setting. */
  lemma PeerReadsReplies(w: Session, n: nat, maxLen: i32, crc: Crc)
    requires n <= |w.inbox| && MAX_MSG_LEN <= maxLen
    requires forall i :: 0 <= i < n ==> Reasonable(w.env(i))
    ensures var sent := After(w, n).sent;
            Drain(SentBytes(sent, crc), maxLen, crc) == Stream(Seen(sent, crc), [], None)
  {
    hide Judge, After, Drain, SentBytes, Seen, Reasonable, WellFormedBody, HandlerRuns;
    var sent := After(w, n).sent;
    EveryRunIsFaithful(w, n);
    forall a | 0 <= a < |sent|
      ensures Readable(sent[a])
    {
      assert IsReplyTo(w, a, sent[a]);
      var i := sent[a].index;
      VerdictSendable(w.inbox[i].1, w.env(i), w.maxLen, TrailerAt(w, i));
    }
    DrainSent(sent, maxLen, crc);
  }
}
