/** The per-connection request loop as a step machine with an arbitrary handler
    (mongowire/src/api/mod.rs, mongowire/src/api/client_info.rs). */
module Connection {
  import opened Bytes
  import opened Text
  import opened ScalarCodec
  import opened BsonModel
  import opened Decode
  import opened OpMsgCodec
  import opened LegacyCodec
  import opened Messages
  import opened Framing
  import opened Carrier
  import Documents

  // ------------------------------------------------------------ errors and commands

  datatype CommandError = CommandError(code: i32, codeName: Str, message: Str)

  const ZERO: Bytes8 := [0, 0, 0, 0, 0, 0, 0, 0] // 0.0

  const ERRMSG: Str := Ascii("errmsg")
  const CODE: Str := Ascii("code")
  const CODE_NAME: Str := Ascii("codeName")

  function ErrorFields(e: CommandError): seq<Field> {
    [Field(OK, ScalarValue(Double(ZERO))),
     Field(ERRMSG, ScalarValue(String(e.message))),
     Field(CODE, ScalarValue(Int32(e.code))),
     Field(CODE_NAME, ScalarValue(String(e.codeName))),
     Field(DB, ScalarValue(String(ADMIN)))]
  }

  const AWAIT_CAPABLE := 8
  const QUERY_FAILURE := 2

  function QueryReply(flags: int, doc: bytes): MessageBody {
    ReplyBody(OpReply(flags, 0, 0, 1, [doc]))
  }

  /** The reply to a command error, in the shape of the request; none when the
      error document cannot be encoded. */
  function ErrorReply(e: CommandError, toQuery: bool): Option<MessageBody> {
    if !EncodesValue(Document(ErrorFields(e))) then None
    else if toQuery then Some(QueryReply(AWAIT_CAPABLE + QUERY_FAILURE, DocumentBytes(ErrorFields(e))))
    else Some(MsgBody(OpMsg(MsgFlags(false, false, false), Sections(DocumentBytes(ErrorFields(e)), []), None)))
  }

  /** `RawDocument::command`: the name of the first field, empty for none. */
  function CommandName(doc: bytes): Result<Str, Error> {
    if |doc| < 4 then Err(ShortDocument(MIN_DOC_LEN, |doc|))
    else if |doc| == 4 || doc[4] == 0 then Ok([])
    else
      var name := doc[5..];
      var end := FindNul(name);
      if end == |name| then Err(ShortDocument(|doc| + 1, |doc|))
      else if !ValidUtf8(name[..end]) then Err(Utf8)
      else Ok(name[..end])
  }

  /** On every document that decodes, the command is the first field's name. */
  lemma CommandIsFirstField(doc: bytes, mode: Mode)
    requires Documents.DecodeDocument(doc, mode, 1).Ok?
    ensures var fields := Documents.DecodeDocument(doc, mode, 1).value;
            CommandName(doc) == Ok(if fields == [] then [] else fields[0].name)
  {
    hide ParseValue, ValidUtf8, Documents.Materialize;
    var body := Documents.Body(doc);
    assert |doc| > 4;
    assert body[1..] == doc[5..];
  }

  // ------------------------------------------------------------ one request

  datatype HandlerResult = Answer(msg: OpMsg) | NoReply | Refused(error: CommandError) | ProtocolFailure

  /** What the surroundings do at one request: the handler's result, how many
      request ids it drew for itself, the checksum setting it leaves behind, and
      the handshake document of that moment. */
  datatype Effect = Effect(result: HandlerResult, drawn: nat, checksum: bool, hello: Option<bytes>)

  type Env = nat -> Effect

  datatype Verdict = Silent | Respond(body: MessageBody) | Hangup

  /** The request itself, taken out of an OP_COMPRESSED wrapper. */
  function Unwrapped(body: MessageBody, maxLen: i32): Result<MessageBody, ProtocolError> {
    if body.CompressedBody? then Unwrap(body.compressed, maxLen) else Ok(body)
  }

  const HELLO: Str := Ascii("hello")
  const IS_MASTER: Str := Ascii("isMaster")
  const ISMASTER: Str := Ascii("ismaster")

  predicate IsHello(name: Str) {
    name == HELLO || name == IS_MASTER || name == ISMASTER
  }

  const ONLY_HELLO := CommandError(59, Ascii("CommandNotFound"), Ascii("OP_QUERY only supports hello/isMaster"))

  function JudgeQuery(q: OpQuery, effect: Effect): Verdict {
    match CommandName(q.query)
    case Err(_) => Hangup
    case Ok(name) =>
      if !IsHello(name) then
        var reply := ErrorReply(ONLY_HELLO, true);
        if reply.Some? then Respond(reply.value) else Silent
      else if effect.hello.Some? then Respond(QueryReply(AWAIT_CAPABLE, effect.hello.value))
      else Hangup
  }

  function JudgeMsg(m: OpMsg, effect: Effect): Verdict {
    if CommandName(m.sections.body).Err? then Hangup
    else if m.flags.moreToCome then Silent
    else
      match effect.result
      case Answer(reply) => Respond(MsgBody(reply))
      case NoReply => Silent
      case ProtocolFailure => Hangup
      case Refused(e) =>
        var reply := ErrorReply(e, false);
        if reply.Some? then Respond(reply.value) else Hangup
  }

  /** What becomes of a request. */
  function Judge(body: MessageBody, effect: Effect, maxLen: i32): Verdict {
    match Unwrapped(body, maxLen)
    case Err(_) => Hangup
    case Ok(QueryBody(q)) => JudgeQuery(q, effect)
    case Ok(MsgBody(m)) => JudgeMsg(m, effect)
    case Ok(ReplyBody(_)) => Silent
    case Ok(CompressedBody(_)) => Hangup
  }

  /** The handler sees every OP_MSG with a readable command, answered or not. */
  predicate HandlerRuns(body: MessageBody, maxLen: i32) {
    var request := Unwrapped(body, maxLen);
    request.Ok? && request.value.MsgBody? && CommandName(request.value.msg.sections.body).Ok?
  }

  // ------------------------------------------------------------ the loop

  /** A 32-bit counter's value after `n` increments from 0. */
  function Wrap32(n: int): i32 {
    var low := n % 0x1_0000_0000;
    if low <= I32_MAX then low else low - 0x1_0000_0000
  }

  lemma WrapShift(v: int, k: int)
    ensures (v + k * 0x1_0000_0000) % 0x1_0000_0000 == v % 0x1_0000_0000
  {
  }

  /** The counter modulo 2^32. */
  lemma WrapIsCongruent(n: int)
    ensures (Wrap32(n) - n) % 0x1_0000_0000 == 0
  {
    WrapShift(0, -(n / 0x1_0000_0000));
    WrapShift(0, -(n / 0x1_0000_0000) - 1);
  }

  /** A reply on its way: the request it answers, and its frame. */
  datatype Sent = Sent(index: nat, header: Header, body: MessageBody, trailer: bool)

  datatype Conn = Conn(nextId: i32, checksum: bool, sent: seq<Sent>, open: bool)

  predicate Encodable(body: MessageBody, trailer: bool) {
    FrameLen(body, trailer) <= MAX_MSG_LEN && !(trailer && body.MsgBody? && body.msg.checksum.Some?)
  }

  /** `send_reply`: the id is drawn first; a frame that cannot be encoded ends
      the connection. */
  function Send(c: Conn, index: nat, responseTo: i32, body: MessageBody): Conn {
    var trailer := c.checksum && body.MsgBody?;
    var drawn := c.(nextId := Wrap32(c.nextId + 1));
    if !Encodable(body, trailer) then drawn.(open := false)
    else
      var header := Header(FrameLen(body, trailer), c.nextId, responseTo, BodyOpcode(body));
      drawn.(sent := c.sent + [Sent(index, header, body, trailer)])
  }

  /** The handler's mark on the connection. */
  function Touched(c: Conn, body: MessageBody, effect: Effect, maxLen: i32): Conn {
    if HandlerRuns(body, maxLen) then c.(nextId := Wrap32(c.nextId + effect.drawn), checksum := effect.checksum) else c
  }

  function Step(c: Conn, index: nat, message: (Header, MessageBody), effect: Effect, maxLen: i32): Conn {
    if !c.open then c
    else
      var c' := Touched(c, message.1, effect, maxLen);
      match Judge(message.1, effect, maxLen)
      case Silent => c'
      case Hangup => c'.(open := false)
      case Respond(body) => Send(c', index, message.0.requestId, body)
  }

  type Inbox = seq<(Header, MessageBody)>

  /** One connection: its configuration, the frames it receives and everything
      the surroundings will do. */
  datatype Session = Session(checksum: bool, maxLen: i32, inbox: Inbox, env: Env)

  /** The connection after the first `n` requests. */
  function After(w: Session, n: nat): Conn
    requires n <= |w.inbox|
  {
    if n == 0 then Conn(0, w.checksum, [], true)
    else Step(After(w, n - 1), n - 1, w.inbox[n - 1], w.env(n - 1), w.maxLen)
  }

  /** The bytes on the wire. */
  function SentBytes(sent: seq<Sent>, crc: Crc): bytes {
    if sent == [] then []
    else
      var last := sent[|sent| - 1];
      SentBytes(sent[..|sent| - 1], crc) + FrameBytes(last.header, last.body, last.trailer, crc)
  }
}
