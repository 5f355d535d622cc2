/** Which reply every request gets, when the connection closes and how replies
    are framed, said without the dispatcher: a relation between a request, what
    the handler did and the reply, with every constant written out
    (mongowire/src/api/mod.rs, mongowire/src/error.rs). */
module ConnectionReplies {
  import opened Bytes
  import opened Text
  import opened ScalarCodec
  import opened BsonModel
  import opened Decode
  import opened OpMsgCodec
  import opened LegacyCodec
  import opened Messages
  import opened Framing
  import opened Carrier
  import opened Connection
  import opened ConnectionTheorems
  import MessageWire

  // ------------------------------------------------------------ commands

  /** The command name: empty for an empty document, otherwise the text between
      the first type byte and the next NUL. */
  lemma CommandIff(doc: bytes, name: Str)
    ensures CommandName(doc) == Ok(name) <==>
            && |doc| >= 4
            && (|doc| == 4 || doc[4] == 0 ==> name == [])
            && (|doc| > 4 && doc[4] != 0 ==> NulFree(name) && name + [0] <= doc[5..])
  {
    hide ValidUtf8;
    if |doc| > 4 && doc[4] != 0 {
      var rest := doc[5..];
      var end := FindNul(rest);
      if NulFree(name) && name + [0] <= rest {
        FirstNul(name, rest);
      } else if end < |rest| {
        assert rest[..end] + [0] <= rest;
      }
    }
  }

  lemma FirstNul(name: bytes, rest: bytes)
    requires NulFree(name) && name + [0] <= rest
    ensures FindNul(rest) == |name| && rest[..|name|] == name && |name| < |rest|
  {
    var tail := rest[|name| + 1..];
    assert rest == name + [0] + tail;
    FindNulAfter(name, tail);
  }

  lemma HelloName()
    ensures HELLO == [104, 101, 108, 108, 111] // hello
  {
    hide Ascii, ValidUtf8;
    AsciiIs("hello", [104, 101, 108, 108, 111]);
  }

  lemma IsMasterName()
    ensures IS_MASTER == [105, 115, 77, 97, 115, 116, 101, 114] // isMaster
  {
    hide Ascii, ValidUtf8;
    AsciiIs("isMaster", [105, 115, 77, 97, 115, 116, 101, 114]);
  }

  lemma LowerName()
    ensures ISMASTER == [105, 115, 109, 97, 115, 116, 101, 114] // ismaster
  {
    hide Ascii, ValidUtf8;
    AsciiIs("ismaster", [105, 115, 109, 97, 115, 116, 101, 114]);
  }

  predicate OpensHandshake(name: Str) {
    || name == [104, 101, 108, 108, 111]
    || name == [105, 115, 77, 97, 115, 116, 101, 114]
    || name == [105, 115, 109, 97, 115, 116, 101, 114]
  }

  /** Three names open a handshake: hello, isMaster and ismaster. */
  lemma HelloIff(name: Str)
    ensures IsHello(name) <==> OpensHandshake(name)
  {
    hide Ascii, ValidUtf8;
    HelloName();
    IsMasterName();
    LowerName();
  }

  // ------------------------------------------------------------ error documents

  function ErrorDocument(e: CommandError): bytes {
    DocumentBytes(ErrorFields(e))
  }

  lemma ErrorKeys()
    ensures |OK| == 2 && |ERRMSG| == 6 && |CODE| == 4 && |CODE_NAME| == 8 && |DB| == 3 && |ADMIN| == 5
    ensures NulFree(OK) && NulFree(ERRMSG) && NulFree(CODE) && NulFree(CODE_NAME) && NulFree(DB)
  {
    hide Ascii, NulFree, ValidUtf8;
  }

  lemma ErrorScalars(e: CommandError)
    ensures Representable(Double(ZERO)) && Representable(String(e.message)) && Representable(Int32(e.code))
    ensures Representable(String(e.codeName)) && Representable(String(ADMIN))
    ensures |ScalarBytes(Double(ZERO))| == 8 && |ScalarBytes(String(e.message))| == |e.message| + 5
    ensures |ScalarBytes(Int32(e.code))| == 4 && |ScalarBytes(String(e.codeName))| == |e.codeName| + 5
    ensures |ScalarBytes(String(ADMIN))| == |ADMIN| + 5
  {
    hide Ascii, ValidUtf8;
  }

  /** An error has a document exactly when it fits 2^31 - 1 bytes. */
  lemma ErrorEncodesIff(e: CommandError)
    ensures EncodesValue(Document(ErrorFields(e))) <==> |e.message| + |e.codeName| + 70 <= 0x7FFF_FFFF
    ensures |ErrorDocument(e)| == |e.message| + |e.codeName| + 70
  {
    hide Ascii, NulFree, Representable, ScalarBytes, FaithfulFields, FieldsDepth, FieldsBytes, EncodesFields,
      CleanFields, ValidUtf8;
    ErrorKeys();
    ErrorScalars(e);
    FiveFields(OK, Double(ZERO), ERRMSG, String(e.message), CODE, Int32(e.code), CODE_NAME, String(e.codeName),
               DB, String(ADMIN));
    FaithfulFieldsAreClean(ErrorFields(e));
    DocumentEncodesIff(ErrorFields(e));
  }

  /** 0.0, the message, the code, its name and the database. */
  function ErrorValues(e: CommandError): seq<Scalar> {
    [Double([0, 0, 0, 0, 0, 0, 0, 0]), String(e.message), Int32(e.code), String(e.codeName), String(ADMIN)]
  }

  /** The raw document holds the error under the five names. */
  predicate HoldsError(doc: bytes, e: CommandError) {
    HasFields(doc, [OK, ERRMSG, CODE, CODE_NAME, DB], ErrorValues(e))
  }

  /** Every error document reads back. */
  lemma ErrorIsRead(e: CommandError)
    requires |e.message| + |e.codeName| + 70 <= 0x7FFF_FFFF
    ensures HoldsError(ErrorDocument(e), e)
  {
    hide Ascii, NulFree, Representable, ScalarBytes, DocumentBytes, HasFields, EncodesValue, ValidUtf8;
    ErrorKeys();
    ErrorScalars(e);
    ErrorEncodesIff(e);
    FiveAreRead(OK, Double(ZERO), ERRMSG, String(e.message), CODE, Int32(e.code), CODE_NAME, String(e.codeName),
                DB, String(ADMIN));
  }

  lemma ShortKeys()
    ensures OK == [111, 107] && DB == [36, 100, 98] // ok, $db
  {
    hide Ascii, ValidUtf8;
    AsciiIs("ok", [111, 107]);
    AsciiIs("$db", [36, 100, 98]);
  }

  lemma MessageKey()
    ensures ERRMSG == [101, 114, 114, 109, 115, 103] // errmsg
  {
    hide Ascii, ValidUtf8;
    AsciiIs("errmsg", [101, 114, 114, 109, 115, 103]);
  }

  lemma AdminName()
    ensures ADMIN == [97, 100, 109, 105, 110] // admin
  {
    hide Ascii, ValidUtf8;
    AsciiIs("admin", [97, 100, 109, 105, 110]);
  }

  lemma CodeKeys()
    ensures CODE == [99, 111, 100, 101] && CODE_NAME == [99, 111, 100, 101, 78, 97, 109, 101] // code, codeName
  {
    hide Ascii, ValidUtf8;
    AsciiIs("code", [99, 111, 100, 101]);
    AsciiIs("codeName", [99, 111, 100, 101, 78, 97, 109, 101]);
  }

  // ------------------------------------------------------------ what a request wants

  /** The frame is this request, plain or in an OP_COMPRESSED wrapper. */
  predicate Carries(frame: MessageBody, maxLen: i32, request: MessageBody) {
    && !request.CompressedBody?
    && (frame == request || (frame.CompressedBody? && Unwrap(frame.compressed, maxLen) == Ok(request)))
  }

  function CommandOf(request: MessageBody): Result<Str, Error> {
    match request
    case MsgBody(m) => CommandName(m.sections.body)
    case QueryBody(q) => CommandName(q.query)
    case _ => Ok([])
  }

  /** An OP_MSG that wants the handler's answer. */
  predicate Asks(request: MessageBody) {
    request.MsgBody? && CommandOf(request).Ok? && !request.msg.flags.moreToCome
  }

  /** An OP_MSG with nothing but this document. */
  function Plain(doc: bytes): MessageBody {
    MsgBody(OpMsg(MsgFlags(false, false, false), Sections(doc, []), None))
  }

  /** The reply a request wants, given what the handler did: its answer, its
      refusal as an error document, the handshake document for a legacy hello,
      and error 59 for any other legacy command. */
  predicate Wants(request: MessageBody, e: Effect, reply: MessageBody) {
    || (Asks(request) && e.result.Answer? && reply == MsgBody(e.result.msg))
    || (Asks(request) && e.result.Refused? && Fits31(e.result.error) && reply == Plain(ErrorDocument(e.result.error)))
    || (request.QueryBody? && CommandOf(request).Ok?
        && if OpensHandshake(CommandOf(request).value) then
             e.hello.Some? && reply == ReplyBody(OpReply(8, 0, 0, 1, [e.hello.value]))
           else reply == ReplyBody(OpReply(10, 0, 0, 1, [ErrorDocument(ONLY_HELLO)])))
  }

  predicate Fits31(e: CommandError) {
    |e.message| + |e.codeName| + 70 <= 0x7FFF_FFFF
  }

  /** A request nothing can be said to: its command is unreadable, the handler
      failed on the protocol or refused with an error too long to write, or a
      handshake document is missing. */
  predicate Unanswerable(request: MessageBody, e: Effect) {
    || CommandOf(request).Err?
    || (Asks(request) && (e.result.ProtocolFailure? || (e.result.Refused? && !Fits31(e.result.error))))
    || (request.QueryBody? && OpensHandshake(CommandOf(request).value) && e.hello == None)
  }

  /** The error for a legacy command that is no handshake. */
  lemma OnlyHelloFits()
    ensures ONLY_HELLO.code == 59 && Fits31(ONLY_HELLO)
  {
    hide Ascii, ValidUtf8;
  }

  lemma OnlyHelloName()
    ensures ONLY_HELLO.codeName == // CommandNotFound
            [67, 111, 109, 109, 97, 110, 100, 78, 111, 116, 70, 111, 117, 110, 100]
  {
    hide Ascii, ValidUtf8;
    AsciiIs("CommandNotFound",
            [67, 111, 109, 109, 97, 110, 100, 78, 111, 116, 70, 111, 117, 110, 100]);
  }

  lemma ErrorReplyIs(e: CommandError)
    ensures ErrorReply(e, false) == if Fits31(e) then Some(Plain(ErrorDocument(e))) else None
    ensures ErrorReply(e, true) ==
            if Fits31(e) then Some(ReplyBody(OpReply(10, 0, 0, 1, [ErrorDocument(e)]))) else None
  {
    hide EncodesValue, ErrorFields, DocumentBytes;
    ErrorEncodesIff(e);
  }

  lemma JudgeMsgIff(m: OpMsg, e: Effect, reply: MessageBody)
    ensures JudgeMsg(m, e) == Respond(reply) <==> Wants(MsgBody(m), e, reply)
    ensures JudgeMsg(m, e) == Hangup <==> Unanswerable(MsgBody(m), e)
  {
    hide CommandName, ErrorReply, ErrorDocument, Fits31, OpensHandshake;
    if e.result.Refused? {
      ErrorReplyIs(e.result.error);
    }
  }

  lemma JudgeQueryIff(q: OpQuery, e: Effect, reply: MessageBody)
    ensures JudgeQuery(q, e) == Respond(reply) <==> Wants(QueryBody(q), e, reply)
    ensures JudgeQuery(q, e) == Hangup <==> Unanswerable(QueryBody(q), e)
  {
    hide CommandName, ErrorReply, ErrorDocument, Fits31, OpensHandshake, IsHello, Ascii, ValidUtf8;
    OnlyHelloFits();
    ErrorReplyIs(ONLY_HELLO);
    if CommandName(q.query).Ok? {
      HelloIff(CommandName(q.query).value);
    }
  }

  /** The request a frame carries, if any, is the only one. */
  lemma CarriedIs(frame: MessageBody, maxLen: i32, request: MessageBody)
    ensures Carries(frame, maxLen, request) <==> Unwrapped(frame, maxLen) == Ok(request)
  {
    hide ParseBody;
    if frame.CompressedBody? {
      MessageWire.UnwrapIff(frame.compressed, maxLen);
      NeverNested(frame.compressed, maxLen);
    }
  }

  lemma NeverNested(c: OpCompressed, maxLen: i32)
    ensures Unwrap(c, maxLen).Ok? ==> !Unwrap(c, maxLen).value.CompressedBody?
  {
    hide ParseOpMsg, ParseQuery, ParseReply;
  }

  lemma JudgeIff(frame: MessageBody, e: Effect, maxLen: i32, request: MessageBody, reply: MessageBody)
    requires Carries(frame, maxLen, request)
    ensures Judge(frame, e, maxLen) == Respond(reply) <==> Wants(request, e, reply)
    ensures Judge(frame, e, maxLen) == Hangup <==> Unanswerable(request, e)
  {
    hide Unwrapped, JudgeMsg, JudgeQuery, Unwrap;
    CarriedIs(frame, maxLen, request);
    match request
    case MsgBody(m) => JudgeMsgIff(m, e, reply);
    case QueryBody(q) => JudgeQueryIff(q, e, reply);
    case _ =>
  }

  /** The handler runs exactly for the OP_MSG requests with a readable command. */
  lemma HandlerRunsIff(frame: MessageBody, maxLen: i32)
    ensures HandlerRuns(frame, maxLen) <==>
            exists m: OpMsg :: Carries(frame, maxLen, MsgBody(m)) && CommandName(m.sections.body).Ok?
  {
    hide CommandName, Unwrapped, Carries;
    var request := Unwrapped(frame, maxLen);
    if HandlerRuns(frame, maxLen) {
      CarriedIs(frame, maxLen, MsgBody(request.value.msg));
    }
    forall m: OpMsg
      ensures Carries(frame, maxLen, MsgBody(m)) <==> request == Ok(MsgBody(m))
    {
      CarriedIs(frame, maxLen, MsgBody(m));
    }
  }

  // ------------------------------------------------------------ whole runs

  /** Among the frames sent is this reply to request `i`. */
  ghost predicate Replied(sent: seq<Sent>, i: nat, reply: MessageBody) {
    exists a :: 0 <= a < |sent| && sent[a].index == i && sent[a].body == reply
  }

  /** Request `i` of a run wants this reply. */
  ghost predicate Calls(w: Session, i: nat, reply: MessageBody)
    requires i < |w.inbox|
  {
    exists request :: Carries(w.inbox[i].1, w.maxLen, request) && Wants(request, w.env(i), reply)
  }

  /** Request `i` ends the connection: its wrapper holds no request, there is
      nothing to say to it, or the reply it wants has no frame. */
  ghost predicate Closes(w: Session, i: nat)
    requires i < |w.inbox|
  {
    || (forall request :: !Carries(w.inbox[i].1, w.maxLen, request))
    || (exists request :: Carries(w.inbox[i].1, w.maxLen, request) && Unanswerable(request, w.env(i)))
    || (exists reply :: Calls(w, i, reply) && !Framable(reply, ChecksumAt(w, i + 1)))
  }

  /** A reply has a frame up to 48,000,000 bytes, unless an OP_MSG that already
      holds a checksum is to get another. */
  predicate Framable(reply: MessageBody, checksum: bool) {
    if checksum && reply.MsgBody? then FrameLen(reply, true) <= 48_000_000 && reply.msg.checksum == None
    else FrameLen(reply, false) <= 48_000_000
  }

  lemma CallsIff(w: Session, i: nat, reply: MessageBody)
    requires i < |w.inbox|
    ensures Calls(w, i, reply) <==> VerdictAt(w, i) == Respond(reply)
  {
    hide Judge, Carries, Wants, Unwrapped, Unanswerable;
    var frame := w.inbox[i].1;
    forall request | Carries(frame, w.maxLen, request)
      ensures Wants(request, w.env(i), reply) <==> VerdictAt(w, i) == Respond(reply)
    {
      JudgeIff(frame, w.env(i), w.maxLen, request, reply);
    }
    RequestOrHangup(w, i);
  }

  lemma RequestOrHangup(w: Session, i: nat)
    requires i < |w.inbox|
    ensures (exists request :: Carries(w.inbox[i].1, w.maxLen, request)) || VerdictAt(w, i) == Hangup
  {
    hide Carries, Unwrapped, JudgeMsg, JudgeQuery;
    var request := Unwrapped(w.inbox[i].1, w.maxLen);
    if request.Ok? {
      CarriedIs(w.inbox[i].1, w.maxLen, request.value);
    }
  }

  lemma ClosesIff(w: Session, i: nat)
    requires i < |w.inbox|
    ensures Closes(w, i) <==> Fatal(w, i)
  {
    hide Judge, Carries, Wants, Unwrapped, Unanswerable, Calls, FrameLen, VerdictAt, ChecksumAt;
    var frame := w.inbox[i].1;
    forall request | Carries(frame, w.maxLen, request)
      ensures Unanswerable(request, w.env(i)) <==> VerdictAt(w, i) == Hangup
    {
      HangupIff(w, i, request);
    }
    RequestOrHangup(w, i);
    NoRequestIsHangup(w, i);
    forall reply
      ensures Calls(w, i, reply) <==> VerdictAt(w, i) == Respond(reply)
    {
      CallsIff(w, i, reply);
    }
  }

  lemma HangupIff(w: Session, i: nat, request: MessageBody)
    requires i < |w.inbox| && Carries(w.inbox[i].1, w.maxLen, request)
    ensures Unanswerable(request, w.env(i)) <==> VerdictAt(w, i) == Hangup
  {
    hide Judge, Carries, Unanswerable;
    JudgeIff(w.inbox[i].1, w.env(i), w.maxLen, request, request);
  }

  lemma NoRequestIsHangup(w: Session, i: nat)
    requires i < |w.inbox|
    ensures (forall request :: !Carries(w.inbox[i].1, w.maxLen, request)) ==> VerdictAt(w, i) == Hangup
  {
    hide Judge, Carries;
    RequestOrHangup(w, i);
  }

  /** The connection stays open exactly while no request ends it. */
  lemma OpenIff(w: Session, i: nat)
    requires i < |w.inbox|
    ensures After(w, 0).open
    ensures After(w, i + 1).open <==> After(w, i).open && !Closes(w, i)
  {
    hide Step, Fatal, Closes, After, VerdictAt, IsReplyTo, Answered, DrawsAt, ChecksumAt;
    EveryRunIsFaithful(w, 0);
    EveryRunIsFaithful(w, i);
    EveryRunIsFaithful(w, i + 1);
    ClosesIff(w, i);
  }

  /** Over every run, the replies are exactly those the requests want: request
      `i` gets a reply if and only if the connection is open after it and the
      request calls for that reply. */
  lemma RepliedIff(w: Session, i: nat, reply: MessageBody)
    requires i < |w.inbox|
    ensures Replied(After(w, |w.inbox|).sent, i, reply) <==> After(w, i + 1).open && Calls(w, i, reply)
  {
    hide After, VerdictAt, Calls, Alive, Faithful;
    EveryRunIsFaithful(w, |w.inbox|);
    EveryRunIsFaithful(w, i + 1);
    OpenIsAlive(w, i + 1, After(w, i + 1));
    CallsIff(w, i, reply);
    RepliedAlive(w, i, reply, After(w, |w.inbox|));
  }

  lemma OpenIsAlive(w: Session, n: nat, c: Conn)
    requires n <= |w.inbox| && Faithful(w, n, c)
    ensures c.open <==> Alive(w, n)
  {
    hide Alive, IsReplyTo, Answered;
  }

  lemma RepliedAlive(w: Session, i: nat, reply: MessageBody, c: Conn)
    requires i < |w.inbox| && Faithful(w, |w.inbox|, c)
    ensures Replied(c.sent, i, reply) <==> Alive(w, i + 1) && VerdictAt(w, i) == Respond(reply)
  {
    hide Alive, VerdictAt, Fatal, DrawsAt, ChecksumAt, TrailerAt, Wrap32, FrameLen;
    if Replied(c.sent, i, reply) {
      var a :| 0 <= a < |c.sent| && c.sent[a].index == i && c.sent[a].body == reply;
      assert IsReplyTo(w, a, c.sent[a]);
    }
    if Alive(w, i + 1) && VerdictAt(w, i) == Respond(reply) {
      assert Answered(w, i);
      var a :| 0 <= a < |c.sent| && c.sent[a].index == i;
      assert IsReplyTo(w, a, c.sent[a]);
    }
  }

  /** The replies to a command the handler saw, while the connection lives: its
      answer; its refusal, as a document that holds the error; or nothing. */
  lemma CommandIsAnswered(w: Session, i: nat, m: OpMsg)
    requires i < |w.inbox| && Carries(w.inbox[i].1, w.maxLen, MsgBody(m))
    requires CommandName(m.sections.body).Ok? && !m.flags.moreToCome && After(w, i + 1).open
    ensures var sent, result := After(w, |w.inbox|).sent, w.env(i).result;
            && (result.Answer? ==> Replied(sent, i, MsgBody(result.msg)))
            && (result.Refused? ==> exists doc :: Replied(sent, i, Plain(doc)) && HoldsError(doc, result.error))
            && (result.NoReply? ==> forall reply :: !Replied(sent, i, reply))
            && !result.ProtocolFailure?
  {
    hide Carries, CommandName, After, Replied, Closes, ErrorDocument, HoldsError;
    var e := w.env(i);
    var request := MsgBody(m);
    OpenIff(w, i);
    ClosesIff(w, i);
    HangupIff(w, i, request);
    match e.result
    case Answer(r) =>
      RepliedIff(w, i, MsgBody(r));
    case Refused(error) =>
      ErrorIsRead(error);
      RepliedIff(w, i, Plain(ErrorDocument(error)));
    case NoReply =>
      forall reply
        ensures !Replied(After(w, |w.inbox|).sent, i, reply)
      {
        RepliedIff(w, i, reply);
        CallsIff(w, i, reply);
        JudgeIff(w.inbox[i].1, e, w.maxLen, request, reply);
      }
    case ProtocolFailure =>
  }

  /** `moreToCome` messages and OP_REPLY frames get no reply. */
  lemma SilenceIsKept(w: Session, i: nat, request: MessageBody, reply: MessageBody)
    requires i < |w.inbox| && Carries(w.inbox[i].1, w.maxLen, request)
    requires request.ReplyBody? || (request.MsgBody? && request.msg.flags.moreToCome)
    ensures !Replied(After(w, |w.inbox|).sent, i, reply)
  {
    hide Carries, CommandName, After, Replied;
    RepliedIff(w, i, reply);
    CallsIff(w, i, reply);
    JudgeIff(w.inbox[i].1, w.env(i), w.maxLen, request, reply);
  }

  /** Legacy queries, while the connection lives: a hello gets the handshake
      document, anything else error 59, each as the one document of an OP_REPLY. */
  lemma QueryIsAnswered(w: Session, i: nat, q: OpQuery)
    requires i < |w.inbox| && Carries(w.inbox[i].1, w.maxLen, QueryBody(q)) && After(w, i + 1).open
    ensures var sent := After(w, |w.inbox|).sent;
            && CommandName(q.query).Ok?
            && if OpensHandshake(CommandName(q.query).value) then
                 && w.env(i).hello.Some?
                 && Replied(sent, i, ReplyBody(OpReply(8, 0, 0, 1, [w.env(i).hello.value])))
               else
                 exists doc :: Replied(sent, i, ReplyBody(OpReply(10, 0, 0, 1, [doc]))) && HoldsError(doc, ONLY_HELLO)
  {
    hide Carries, CommandName, After, Replied, Closes, ErrorDocument, HoldsError, OpensHandshake;
    var request := QueryBody(q);
    OpenIff(w, i);
    ClosesIff(w, i);
    HangupIff(w, i, request);
    if OpensHandshake(CommandName(q.query).value) {
      RepliedIff(w, i, ReplyBody(OpReply(8, 0, 0, 1, [w.env(i).hello.value])));
    } else {
      OnlyHelloFits();
      ErrorIsRead(ONLY_HELLO);
      RepliedIff(w, i, ReplyBody(OpReply(10, 0, 0, 1, [ErrorDocument(ONLY_HELLO)])));
    }
  }

  // ------------------------------------------------------------ frames

  /** How reply `a` is framed: under the id of its request, with an id of its own
      that counts replies and the handlers' draws modulo 2^32, with the length it
      has on the wire, and with a checksum exactly when it is an OP_MSG and the
      setting says so. */
  lemma ReplyFrames(w: Session, a: nat, crc: Crc)
    requires a < |After(w, |w.inbox|).sent|
    ensures var s := After(w, |w.inbox|).sent[a];
            && s.index < |w.inbox|
            && s.header.responseTo == w.inbox[s.index].0.requestId
            && (s.header.requestId - a - DrawsAt(w, s.index + 1)) % 0x1_0000_0000 == 0
            && s.header.messageLength == |FrameBytes(s.header, s.body, s.trailer, crc)| <= 48_000_000
            && s.header.opcode == (if s.body.MsgBody? then Msg else Reply)
            && (s.trailer <==> s.body.MsgBody? && ChecksumAt(w, s.index + 1))
  {
    hide After, Step, VerdictAt, FrameLen, FrameBytes, DrawsAt, ChecksumAt, Wrap32, Calls;
    var s := After(w, |w.inbox|).sent[a];
    EveryRunIsFaithful(w, |w.inbox|);
    assert IsReplyTo(w, a, s);
    WrapIsCongruent(a + DrawsAt(w, s.index + 1));
    FrameLength(s.header, s.body, s.trailer, crc);
    CallsIff(w, s.index, s.body);
    ReplyKinds(w, s.index, s.body);
  }

  lemma ReplyKinds(w: Session, i: nat, reply: MessageBody)
    requires i < |w.inbox| && Calls(w, i, reply)
    ensures reply.MsgBody? || reply.ReplyBody?
  {
    hide Carries, CommandOf, Asks, OpensHandshake, ErrorDocument, Fits31;
  }
}
