/** Opcodes, the message header, OP_COMPRESSED and the dispatch over body types
    (mongowire/src/messages/header.rs, mongowire/src/messages/op_compressed.rs,
    mongowire/src/messages/mod.rs, mongowire/src/compression/mod.rs). */
module Messages {
  import opened Bytes
  import opened Io
  import opened OpMsgCodec
  import opened OpMsgTheorems
  import opened LegacyCodec

  const MSG_HEADER_LEN := 16

  // ------------------------------------------------------------ opcodes

  datatype Opcode = Reply | Update | Insert | Reserved | Query | GetMore | Delete | KillCursors | Compressed | Msg

  function OpcodeNumber(o: Opcode): i32 {
    match o
    case Reply => 1
    case Update => 2001
    case Insert => 2002
    case Reserved => 2003
    case Query => 2004
    case GetMore => 2005
    case Delete => 2006
    case KillCursors => 2007
    case Compressed => 2012
    case Msg => 2013
  }

  function OpcodeOf(v: i32): Option<Opcode> {
    if v == 1 then Some(Reply)
    else if v == 2001 then Some(Update)
    else if v == 2002 then Some(Insert)
    else if v == 2003 then Some(Reserved)
    else if v == 2004 then Some(Query)
    else if v == 2005 then Some(GetMore)
    else if v == 2006 then Some(Delete)
    else if v == 2007 then Some(KillCursors)
    else if v == 2012 then Some(Compressed)
    else if v == 2013 then Some(Msg)
    else None
  }

  lemma OpcodeRoundTrip(o: Opcode, v: i32)
    ensures OpcodeOf(OpcodeNumber(o)) == Some(o)
    ensures OpcodeOf(v).Some? ==> OpcodeNumber(OpcodeOf(v).value) == v
  {
  }

  // ------------------------------------------------------------ header

  datatype Header = Header(messageLength: i32, requestId: i32, responseTo: i32, opcode: Opcode)

  function ParseHeader(b: bytes, maxLen: i32): Result<Header, ProtocolError> {
    if |b| < MSG_HEADER_LEN then Err(InvalidHeader("short header"))
    else if I32(b) < MSG_HEADER_LEN then Err(InvalidHeader("length below header size"))
    else if I32(b) > maxLen then Err(MessageTooLarge(I32(b), maxLen))
    else if I32(b) > MAX_MSG_LEN then Err(MessageTooLarge(I32(b), MAX_MSG_LEN))
    else
      var code := I32(b[12..]);
      match OpcodeOf(code)
      case None => Err(UnsupportedOpcode(code))
      case Some(o) => Ok(Header(I32(b), I32(b[4..]), I32(b[8..]), o))
  }

  function HeaderBytes(h: Header): (b: bytes)
    ensures |b| == MSG_HEADER_LEN
  {
    LE32(h.messageLength) + (LE32(h.requestId) + (LE32(h.responseTo) + LE32(OpcodeNumber(h.opcode))))
  }

  lemma HeaderFields(h: Header, rest: bytes)
    ensures var b := HeaderBytes(h) + rest;
            && I32(b) == h.messageLength && I32(b[4..]) == h.requestId
            && I32(b[8..]) == h.responseTo && I32(b[12..]) == OpcodeNumber(h.opcode)
  {
    hide LE32, U32, I32;
    var b := HeaderBytes(h) + rest;
    var t3 := LE32(OpcodeNumber(h.opcode)) + rest;
    var t2 := LE32(h.responseTo) + t3;
    var t1 := LE32(h.requestId) + t2;
    assert b == LE32(h.messageLength) + t1;
    assert b[4..] == t1;
    assert b[8..] == t1[4..];
    assert b[12..] == t1[8..] == t3;
    LE32RoundTrip(h.messageLength, t1);
    LE32RoundTrip(h.requestId, t2);
    LE32RoundTrip(h.responseTo, t3);
    LE32RoundTrip(OpcodeNumber(h.opcode), rest);
  }

  lemma ParseHeaderOf(h: Header, rest: bytes, maxLen: i32)
    requires MSG_HEADER_LEN <= h.messageLength <= MAX_MSG_LEN && h.messageLength <= maxLen
    ensures ParseHeader(HeaderBytes(h) + rest, maxLen) == Ok(h)
  {
    hide LE32, U32, I32, OpcodeNumber, OpcodeOf, HeaderBytes;
    HeaderFields(h, rest);
    OpcodeRoundTrip(h.opcode, 0);
  }

  // ------------------------------------------------------------ OP_COMPRESSED

  /** The compressors; in the default build only `noop` is enabled. */
  datatype Compressor = Noop | Snappy | Zlib | Zstd

  function CompressorByte(c: Compressor): byte {
    match c
    case Noop => 0
    case Snappy => 1
    case Zlib => 2
    case Zstd => 3
  }

  function CompressorOf(b: byte): Option<Compressor> {
    if b == 0 then Some(Noop) else if b == 1 then Some(Snappy)
    else if b == 2 then Some(Zlib) else if b == 3 then Some(Zstd) else None
  }

  function Compress(c: Compressor, data: bytes): Result<bytes, ProtocolError> {
    if c == Noop then Ok(data) else Err(UnsupportedCompressor(CompressorByte(c)))
  }

  function Decompress(c: Compressor, data: bytes, expected: nat): Result<bytes, ProtocolError> {
    if c != Noop then Err(UnsupportedCompressor(CompressorByte(c)))
    else if |data| != expected then Err(DecompressedSizeMismatch(expected, |data|))
    else Ok(data)
  }

  datatype OpCompressed = OpCompressed(original: Opcode, uncompressedSize: i32, compressor: Compressor, payload: bytes)

  function ParseCompressed(body: bytes): Result<OpCompressed, ProtocolError> {
    var (code, r1) :- LegacyCodec.AsProtocol(ReadI32(body));
    match OpcodeOf(code)
    case None => Err(UnsupportedOpcode(code))
    case Some(original) =>
      var (size, r2) :- LegacyCodec.AsProtocol(ReadI32(r1));
      if size < 0 then Err(InvalidOpMsg(NegativeUncompressedSize))
      else
        var (id, payload) :- LegacyCodec.AsProtocol(ReadU8(r2));
        match CompressorOf(id)
        case None => Err(UnsupportedCompressor(id))
        case Some(c) => Ok(OpCompressed(original, size, c, payload))
  }

  function CompressedBytes(m: OpCompressed): bytes {
    LE32(OpcodeNumber(m.original)) + (LE32(m.uncompressedSize) + ([CompressorByte(m.compressor)] + m.payload))
  }

  lemma ParseCompressedOf(m: OpCompressed)
    requires m.uncompressedSize >= 0
    ensures ParseCompressed(CompressedBytes(m)) == Ok(m)
  {
    hide LE32, ReadI32, OpcodeNumber, OpcodeOf;
    var id := [CompressorByte(m.compressor)];
    OpcodeRoundTrip(m.original, 0);
    ReadI32Of(OpcodeNumber(m.original), LE32(m.uncompressedSize) + (id + m.payload));
    ReadI32Of(m.uncompressedSize, id + m.payload);
    ReadBytesOf(id, m.payload);
  }

  // ------------------------------------------------------------ bodies

  datatype MessageBody =
    | MsgBody(msg: OpMsg)
    | QueryBody(query: OpQuery)
    | ReplyBody(reply: OpReply)
    | CompressedBody(compressed: OpCompressed)

  function BodyOpcode(b: MessageBody): Opcode {
    match b
    case MsgBody(_) => Msg
    case QueryBody(_) => Query
    case ReplyBody(_) => Reply
    case CompressedBody(_) => Compressed
  }

  function BodyLen(b: MessageBody): nat {
    match b
    case MsgBody(m) => OpMsgLen(m)
    case QueryBody(q) => 12 + |q.fullCollectionName| + 1 + |q.query| + |SelectorBytes(q)|
    case ReplyBody(r) => 20 + DocumentsLen(r.documents)
    case CompressedBody(c) => 4 + 4 + 1 + |c.payload|
  }

  function BodyBytes(b: MessageBody): bytes {
    match b
    case MsgBody(m) => OpMsgBytes(m)
    case QueryBody(q) => QueryBytes(q)
    case ReplyBody(r) => ReplyBytes(r)
    case CompressedBody(c) => CompressedBytes(c)
  }

  function ParseBody(o: Opcode, body: bytes): Result<MessageBody, ProtocolError> {
    match o
    case Msg =>
      var m :- ParseOpMsg(body);
      Ok(MsgBody(m))
    case Query =>
      var q :- ParseQuery(body);
      Ok(QueryBody(q))
    case Reply =>
      var r :- ParseReply(body);
      Ok(ReplyBody(r))
    case Compressed =>
      var c :- ParseCompressed(body);
      Ok(CompressedBody(c))
    case _ => Err(UnsupportedOpcode(OpcodeNumber(o)))
  }

  /** The declared length is the number of bytes written. */
  lemma BodyLenIsLength(b: MessageBody)
    ensures BodyLen(b) == |BodyBytes(b)|
  {
    hide LE32, LE64, OpMsgLen, OpMsgBytes, Concat, DocumentsLen;
    match b
    case MsgBody(m) => OpMsgLenIsLength(m);
    case ReplyBody(r) => DocumentsLenIsLength(r.documents);
    case _ =>
  }

  predicate WellFormedBody(b: MessageBody) {
    match b
    case MsgBody(m) => WellFormedMsg(m) && AllLarge(m.sections.sequences)
    case QueryBody(q) => WellFormedQuery(q)
    case ReplyBody(r) => WellFormedReply(r)
    case CompressedBody(c) => c.uncompressedSize >= 0
  }

  lemma ParseBodyOf(b: MessageBody)
    requires WellFormedBody(b)
    ensures ParseBody(BodyOpcode(b), BodyBytes(b)) == Ok(b)
  {
    hide ParseOpMsg, OpMsgBytes, ParseQuery, QueryBytes, ParseReply, ReplyBytes, ParseCompressed, CompressedBytes,
         WellFormedMsg, WellFormedQuery, WellFormedReply, AllLarge;
    match b
    case MsgBody(m) => ParseOfEncode(m);
    case QueryBody(q) => ParseQueryOf(q);
    case ReplyBody(r) => ParseReplyOf(r);
    case CompressedBody(c) => ParseCompressedOf(c);
  }

  // ------------------------------------------------------------ wrapping

  function Wrap(o: Opcode, body: bytes, c: Compressor): Result<OpCompressed, ProtocolError> {
    if |body| > I32_MAX then Err(CompressionFailed)
    else
      var payload :- Compress(c, body);
      Ok(OpCompressed(o, |body|, c, payload))
  }

  function Unwrap(m: OpCompressed, maxLen: i32): Result<MessageBody, ProtocolError> {
    if m.uncompressedSize < 0 then Err(InvalidOpMsg(NegativeUncompressedSize))
    else if m.original == Compressed then Err(InvalidOpMsg(NestedCompression))
    else if m.uncompressedSize > maxLen then Err(MessageTooLarge(m.uncompressedSize, maxLen))
    else
      var body :- Decompress(m.compressor, m.payload, m.uncompressedSize);
      ParseBody(m.original, body)
  }

  /** Wrapping an encoded body, writing and reading the wrapper and unwrapping
      gives the body back, up to the size limit; nesting is refused. */
  lemma WrapRoundTrip(b: MessageBody, maxLen: i32)
    requires WellFormedBody(b) && |BodyBytes(b)| <= I32_MAX
    ensures var wrapped := Wrap(BodyOpcode(b), BodyBytes(b), Noop);
            && wrapped.Ok?
            && ParseCompressed(CompressedBytes(wrapped.value)) == wrapped
            && Unwrap(wrapped.value, maxLen)
            == if b.CompressedBody? then Err(InvalidOpMsg(NestedCompression))
               else if |BodyBytes(b)| > maxLen then Err(MessageTooLarge(|BodyBytes(b)|, maxLen))
               else Ok(b)
  {
    hide BodyBytes, ParseBody, CompressedBytes, ParseCompressed, WellFormedBody;
    var wrapped := Wrap(BodyOpcode(b), BodyBytes(b), Noop).value;
    ParseCompressedOf(wrapped);
    ParseBodyOf(b);
  }

  /** Whatever is unwrapped is never itself compressed. */
  lemma UnwrapIsFlat(m: OpCompressed, maxLen: i32)
    requires Unwrap(m, maxLen).Ok?
    ensures !Unwrap(m, maxLen).value.CompressedBody?
  {
    hide ParseOpMsg, ParseQuery, ParseReply, ParseCompressed;
  }
}
