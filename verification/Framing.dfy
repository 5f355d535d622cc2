/** Frames over a growing buffer (mongowire/src/framing.rs). The CRC-32C is any
    function of the bytes it covers. */
module Framing {
  import opened Bytes
  import opened BsonModel
  import opened OpMsgCodec
  import opened OpMsgTheorems
  import opened LegacyCodec
  import opened Messages

  type Crc = bytes -> u32

  /** What `parse_message` does with a buffer: wait, deliver a message, or fail;
      `rest` is what stays in the buffer. */
  datatype Outcome =
    | NeedMore
    | Message(header: Header, body: MessageBody, rest: bytes)
    | Failure(error: ProtocolError, rest: bytes)

  /** The checks an OP_MSG frame with `checksumPresent` must pass before it is
      consumed. */
  function CheckFrame(frame: bytes, opcode: Opcode, crc: Crc): Result<(), ProtocolError>
    requires |frame| >= MSG_HEADER_LEN
  {
    var n := |frame|;
    if opcode != Msg || n < MSG_HEADER_LEN + 4 || U32(frame[MSG_HEADER_LEN..]) % 2 == 0 then Ok(())
    else if n < MSG_HEADER_LEN + 10 then Err(InvalidOpMsg(ChecksumFrameTooShort))
    else
      var expected := U32(frame[n - 4..]);
      var computed := crc(frame[..n - 4]);
      if computed != expected then Err(ChecksumMismatch(expected, computed)) else Ok(())
  }

  function ParseMessage(buf: bytes, maxLen: i32, crc: Crc): Outcome {
    if |buf| < MSG_HEADER_LEN then NeedMore
    else
      match ParseHeader(buf[..MSG_HEADER_LEN], maxLen)
      case Err(e) => Failure(e, buf)
      case Ok(header) =>
        var n := header.messageLength;
        if |buf| < n then NeedMore
        else
          match CheckFrame(buf[..n], header.opcode, crc)
          case Err(e) => Failure(e, buf)
          case Ok(_) =>
            match ParseBody(header.opcode, buf[MSG_HEADER_LEN..n])
            case Err(e) => Failure(e, buf[n..])
            case Ok(body) => Message(header, body, buf[n..])
  }

  // ------------------------------------------------------------ more bytes change nothing

  function AddRest(o: Outcome, more: bytes): Outcome {
    match o
    case NeedMore => NeedMore
    case Message(h, b, rest) => Message(h, b, rest + more)
    case Failure(e, rest) => Failure(e, rest + more)
  }

  lemma HeaderLengthPositive(b: bytes, maxLen: i32)
    requires ParseHeader(b, maxLen).Ok?
    ensures ParseHeader(b, maxLen).value.messageLength >= MSG_HEADER_LEN
  {
  }

  /** A delivered message or an error is not affected by bytes that arrive
      later; they only queue up behind. */
  lemma MoreBytesKeepOutcome(buf: bytes, more: bytes, maxLen: i32, crc: Crc)
    requires !ParseMessage(buf, maxLen, crc).NeedMore?
    ensures ParseMessage(buf + more, maxLen, crc) == AddRest(ParseMessage(buf, maxLen, crc), more)
  {
    hide ParseHeader, CheckFrame, ParseBody;
    assert (buf + more)[..MSG_HEADER_LEN] == buf[..MSG_HEADER_LEN];
    var h := ParseHeader(buf[..MSG_HEADER_LEN], maxLen);
    if h.Ok? {
      var n := h.value.messageLength;
      HeaderLengthPositive(buf[..MSG_HEADER_LEN], maxLen);
      assert (buf + more)[..n] == buf[..n];
      assert (buf + more)[MSG_HEADER_LEN..n] == buf[MSG_HEADER_LEN..n];
      assert (buf + more)[n..] == buf[n..] + more;
    }
  }

  /** A delivered message takes its frame off the buffer. */
  lemma MessageConsumes(buf: bytes, maxLen: i32, crc: Crc)
    requires ParseMessage(buf, maxLen, crc).Message?
    ensures |ParseMessage(buf, maxLen, crc).rest| + MSG_HEADER_LEN <= |buf|
  {
    hide ParseHeader, CheckFrame, ParseBody;
    HeaderLengthPositive(buf[..MSG_HEADER_LEN], maxLen);
  }

  // ------------------------------------------------------------ draining

  /** What a connection has read so far: the messages, and either the bytes
      still waiting or the error that ended it. */
  datatype Stream = Stream(messages: seq<(Header, MessageBody)>, pending: bytes, error: Option<ProtocolError>)

  /** Parse messages off the buffer until it waits or fails. */
  function Drain(buf: bytes, maxLen: i32, crc: Crc): Stream
    decreases |buf|
  {
    match ParseMessage(buf, maxLen, crc)
    case NeedMore => Stream([], buf, None)
    case Failure(e, rest) => Stream([], [], Some(e))
    case Message(h, b, rest) =>
      MessageConsumes(buf, maxLen, crc);
      var s := Drain(rest, maxLen, crc);
      s.(messages := [(h, b)] + s.messages)
  }

  /** A chunk arrives: append it and drain; after an error nothing is read. */
  function Feed(s: Stream, chunk: bytes, maxLen: i32, crc: Crc): Stream {
    if s.error.Some? then s
    else
      var next := Drain(s.pending + chunk, maxLen, crc);
      next.(messages := s.messages + next.messages)
  }

  function FeedAll(s: Stream, chunks: seq<bytes>, maxLen: i32, crc: Crc): Stream
    decreases |chunks|
  {
    if chunks == [] then s else FeedAll(Feed(s, chunks[0], maxLen, crc), chunks[1..], maxLen, crc)
  }

  /** Draining early and feeding the rest later is draining everything at once. */
  lemma {:induction false} DrainThenFeed(buf: bytes, more: bytes, maxLen: i32, crc: Crc)
    ensures Feed(Drain(buf, maxLen, crc), more, maxLen, crc) == Drain(buf + more, maxLen, crc)
    decreases |buf|
  {
    hide ParseMessage;
    var o := ParseMessage(buf, maxLen, crc);
    if !o.NeedMore? {
      MoreBytesKeepOutcome(buf, more, maxLen, crc);
    }
    match o
    case Message(h, b, rest) =>
      MessageConsumes(buf, maxLen, crc);
      DrainThenFeed(rest, more, maxLen, crc);
      var later := Drain(Drain(rest, maxLen, crc).pending + more, maxLen, crc).messages;
      var now := Drain(rest, maxLen, crc).messages;
      assert [(h, b)] + now + later == [(h, b)] + (now + later);
    case NeedMore =>
      assert [] + Drain(buf + more, maxLen, crc).messages == Drain(buf + more, maxLen, crc).messages;
    case Failure(_, _) =>
  }

  /** Framing does not depend on chunking: feeding a stream in any chunks yields
      the same messages, the same waiting bytes and the same error as draining
      it whole. */
  lemma {:induction false} ChunkingIsInvisible(buf: bytes, chunks: seq<bytes>, maxLen: i32, crc: Crc)
    ensures FeedAll(Drain(buf, maxLen, crc), chunks, maxLen, crc) == Drain(buf + Concat(chunks), maxLen, crc)
    decreases |chunks|
  {
    hide Drain, Feed;
    if chunks == [] {
      assert buf + Concat(chunks) == buf;
    } else {
      DrainThenFeed(buf, chunks[0], maxLen, crc);
      ChunkingIsInvisible(buf + chunks[0], chunks[1..], maxLen, crc);
      assert buf + chunks[0] + Concat(chunks[1..]) == buf + Concat(chunks);
    }
  }

  /** The whole connection, from an empty buffer. */
  lemma AnyTwoChunkingsAgree(chunks: seq<bytes>, chunks': seq<bytes>, maxLen: i32, crc: Crc)
    requires Concat(chunks) == Concat(chunks')
    ensures FeedAll(Stream([], [], None), chunks, maxLen, crc) == FeedAll(Stream([], [], None), chunks', maxLen, crc)
  {
    hide FeedAll, ParseMessage;
    assert ParseMessage([], maxLen, crc) == NeedMore by {
      EmptyWaits(maxLen, crc);
    }
    assert Drain([], maxLen, crc) == Stream([], [], None);
    ChunkingIsInvisible([], chunks, maxLen, crc);
    ChunkingIsInvisible([], chunks', maxLen, crc);
  }

  lemma EmptyWaits(maxLen: i32, crc: Crc)
    ensures ParseMessage([], maxLen, crc) == NeedMore
  {
  }

  // ------------------------------------------------------------ encoding

  function FrameLen(body: MessageBody, checksum: bool): nat {
    MSG_HEADER_LEN + BodyLen(body) + (if checksum then 4 else 0)
  }

  /** The body as it goes on the wire: an OP_MSG under a checksum trailer has
      its `checksumPresent` bit set. */
  function Flagged(body: MessageBody, checksum: bool): MessageBody {
    if checksum && body.MsgBody? then MsgBody(body.msg.(flags := body.msg.flags.(checksumPresent := true)))
    else body
  }

  /** Everything the checksum covers. */
  function Covered(header: Header, body: MessageBody, checksum: bool): bytes {
    HeaderBytes(header) + BodyBytes(Flagged(body, checksum))
  }

  function FrameBytes(header: Header, body: MessageBody, checksum: bool, crc: Crc): bytes {
    var covered := Covered(header, body, checksum);
    if checksum then covered + LE32(crc(covered)) else covered
  }

  /** The body a receiver sees. */
  function Received(header: Header, body: MessageBody, checksum: bool, crc: Crc): MessageBody {
    if checksum && body.MsgBody? then
      MsgBody(Flagged(body, true).msg.(checksum := Some(crc(Covered(header, body, true)))))
    else body
  }

  lemma FlaggedLength(body: MessageBody, checksum: bool)
    ensures BodyLen(Flagged(body, checksum)) == BodyLen(body)
  {
    hide SequencesLen, DocumentsLen;
  }

  /** The header's length field is the number of bytes written. */
  lemma FrameLength(header: Header, body: MessageBody, checksum: bool, crc: Crc)
    ensures |FrameBytes(header, body, checksum, crc)| == FrameLen(body, checksum)
  {
    hide LE32, BodyBytes, BodyLen, HeaderBytes;
    FlaggedLength(body, checksum);
    BodyLenIsLength(Flagged(body, checksum));
  }

  lemma FrameIsReceived(header: Header, m: OpMsg, crc: Crc)
    requires m.checksum.None?
    ensures FrameBytes(header, MsgBody(m), true, crc)
         == HeaderBytes(header) + BodyBytes(Received(header, MsgBody(m), true, crc))
  {
    hide LE32, HeaderBytes, SectionsBytes, FlagBits;
    var m' := Flagged(MsgBody(m), true).msg;
    var sum := LE32(crc(Covered(header, MsgBody(m), true)));
    assert OpMsgBytes(m') == LE32(FlagBits(m'.flags)) + SectionsBytes(m'.sections) + [];
  }

  lemma FlagParity(f: MsgFlags)
    ensures FlagBits(f) % 2 == 1 <==> f.checksumPresent
  {
  }

  /** A frame of header and OP_MSG body passes the checksum gate exactly when it
      has no checksum or the right one. */
  lemma CheckFrameOf(header: Header, m: OpMsg, crc: Crc)
    requires WellFormedMsg(m)
    ensures var frame := HeaderBytes(header) + OpMsgBytes(m);
            CheckFrame(frame, Msg, crc) ==
            if m.checksum.None? || crc(frame[..|frame| - 4]) == m.checksum.value then Ok(())
            else Err(ChecksumMismatch(m.checksum.value, crc(frame[..|frame| - 4])))
  {
    hide LE32, U32, HeaderBytes, FlagBits, SectionsBytes, ValidDocument, NewSections, ValidDocuments;
    var b := OpMsgBytes(m);
    var frame := HeaderBytes(header) + b;
    OpMsgLayout(m, b);
    FlagParity(m.flags);
    ValidIsNotEmpty(m.sections.body);
    assert frame[MSG_HEADER_LEN..] == b;
    if m.checksum.Some? {
      assert frame[|frame| - 4..] == b[|b| - 4..];
    }
  }

  /** Reading back a frame assembled from a header and a well-formed body. */
  lemma ParseAssembled(header: Header, body: MessageBody, suffix: bytes, maxLen: i32, crc: Crc)
    requires WellFormedBody(body) && header.opcode == BodyOpcode(body)
    requires header.messageLength == MSG_HEADER_LEN + |BodyBytes(body)| <= MAX_MSG_LEN && header.messageLength <= maxLen
    requires CheckFrame(HeaderBytes(header) + BodyBytes(body), header.opcode, crc).Ok?
    ensures ParseMessage(HeaderBytes(header) + BodyBytes(body) + suffix, maxLen, crc) == Message(header, body, suffix)
  {
    hide ParseHeader, CheckFrame, ParseBody, BodyBytes, HeaderBytes, WellFormedBody, BodyOpcode;
    var frame := HeaderBytes(header) + BodyBytes(body);
    var buf := frame + suffix;
    assert buf[..MSG_HEADER_LEN] == HeaderBytes(header) == HeaderBytes(header) + [];
    ParseHeaderOf(header, [], maxLen);
    assert buf[..|frame|] == frame && buf[|frame|..] == suffix;
    assert buf[MSG_HEADER_LEN..|frame|] == BodyBytes(body);
    ParseBodyOf(body);
  }

  lemma ReceivedIsWellFormed(header: Header, m: OpMsg, crc: Crc)
    requires WellFormedBody(MsgBody(m)) && m.checksum.None? && |OpMsgBytes(m)| + 4 <= I32_MAX
    ensures WellFormedBody(Received(header, MsgBody(m), true, crc))
  {
    hide LE32, SectionsBytes, ValidDocument, NewSections, ValidDocuments, AllLarge, Covered;
  }

  /** Frame round trip: a well-formed body under a matching opcode and within
      the limits is read back from its frame followed by anything, leaving
      exactly what followed. With a checksum the receiver sees the same OP_MSG
      flagged and carrying the CRC of everything before it. */
  lemma FrameRoundTrip(header: Header, body: MessageBody, checksum: bool, suffix: bytes, maxLen: i32, crc: Crc)
    requires WellFormedBody(body) && header.opcode == BodyOpcode(body)
    requires header.messageLength == FrameLen(body, checksum) <= MAX_MSG_LEN && header.messageLength <= maxLen
    requires body.MsgBody? ==> body.msg.checksum.None?
    requires checksum ==> body.MsgBody?
    ensures ParseMessage(FrameBytes(header, body, checksum, crc) + suffix, maxLen, crc)
         == Message(header, Received(header, body, checksum, crc), suffix)
  {
    hide ParseMessage, CheckFrame, BodyBytes, BodyLen, HeaderBytes, WellFormedBody, Covered, LE32;
    var seen := Received(header, body, checksum, crc);
    BodyLenIsLength(body);
    FrameLength(header, body, checksum, crc);
    if checksum {
      FrameIsReceived(header, body.msg, crc);
      MsgBodyLength(body.msg);
      ReceivedIsWellFormed(header, body.msg, crc);
      ReceivedPasses(header, body.msg, crc);
      ParseAssembled(header, seen, suffix, maxLen, crc);
    } else {
      PlainPasses(header, body, crc);
      PlainFrame(header, body, crc);
      ParseAssembled(header, body, suffix, maxLen, crc);
    }
  }

  lemma MsgBodyLength(m: OpMsg)
    ensures BodyBytes(MsgBody(m)) == OpMsgBytes(m)
  {
  }

  lemma PlainFrame(header: Header, body: MessageBody, crc: Crc)
    ensures FrameBytes(header, body, false, crc) == HeaderBytes(header) + BodyBytes(body)
  {
    hide BodyBytes, HeaderBytes;
  }

  lemma PlainPasses(header: Header, body: MessageBody, crc: Crc)
    requires WellFormedBody(body) && (body.MsgBody? ==> body.msg.checksum.None?)
    ensures CheckFrame(HeaderBytes(header) + BodyBytes(body), BodyOpcode(body), crc).Ok?
  {
    hide U32, HeaderBytes, OpMsgBytes, WellFormedMsg, AllLarge;
    if body.MsgBody? {
      CheckFrameOf(header, body.msg, crc);
    }
  }

  lemma ReceivedPasses(header: Header, m: OpMsg, crc: Crc)
    requires WellFormedBody(MsgBody(m)) && m.checksum.None? && |OpMsgBytes(m)| + 4 <= I32_MAX
    ensures var seen := Received(header, MsgBody(m), true, crc);
            CheckFrame(HeaderBytes(header) + BodyBytes(seen), Msg, crc).Ok?
  {
    hide U32, LE32, HeaderBytes, CheckFrame, Covered, OpMsgBytes, WellFormedMsg, AllLarge;
    var seen := Received(header, MsgBody(m), true, crc);
    ReceivedIsWellFormed(header, m, crc);
    CheckFrameOf(header, seen.msg, crc);
    FrameIsReceived(header, m, crc);
    var covered := Covered(header, MsgBody(m), true);
    var frame := covered + LE32(crc(covered));
    assert frame[..|frame| - 4] == covered;
  }

  /** A message that already carries a checksum (a parsed one) is accepted under
      a new header exactly when that checksum is still right; otherwise the
      receiver reports the mismatch and keeps the buffer. */
  lemma StaleChecksum(header: Header, m: OpMsg, suffix: bytes, maxLen: i32, crc: Crc)
    requires WellFormedBody(MsgBody(m)) && header.opcode == Msg && m.checksum.Some?
    requires header.messageLength == FrameLen(MsgBody(m), false) <= MAX_MSG_LEN && header.messageLength <= maxLen
    ensures var frame := FrameBytes(header, MsgBody(m), false, crc);
            |frame| >= 4 &&
            ParseMessage(frame + suffix, maxLen, crc) ==
            if crc(frame[..|frame| - 4]) == m.checksum.value then Message(header, MsgBody(m), suffix)
            else Failure(ChecksumMismatch(m.checksum.value, crc(frame[..|frame| - 4])), frame + suffix)
  {
    hide CheckFrame, ParseHeader, ParseBody, OpMsgBytes, OpMsgLen, HeaderBytes, WellFormedMsg, AllLarge;
    var frame := FrameBytes(header, MsgBody(m), false, crc);
    OpMsgLenIsLength(m);
    CheckFrameOf(header, m, crc);
    if crc(frame[..|frame| - 4]) == m.checksum.value {
      ParseAssembled(header, MsgBody(m), suffix, maxLen, crc);
    } else {
      var buf := frame + suffix;
      assert buf[..MSG_HEADER_LEN] == HeaderBytes(header) == HeaderBytes(header) + [];
      ParseHeaderOf(header, [], maxLen);
      assert buf[..|frame|] == frame;
    }
  }

  /** Only OP_MSG can take the trailer: no other body is read back from its
      frame when `encode_message` is asked for a checksum. */
  lemma TrailerNeedsOpMsg(header: Header, body: MessageBody, suffix: bytes, maxLen: i32, crc: Crc)
    requires WellFormedBody(body) && !body.MsgBody? && header.opcode == BodyOpcode(body)
    requires header.messageLength == FrameLen(body, true) <= MAX_MSG_LEN && header.messageLength <= maxLen
    ensures ParseMessage(FrameBytes(header, body, true, crc) + suffix, maxLen, crc) != Message(header, body, suffix)
  {
    hide CheckFrame, ParseHeader, ParseBody, BodyBytes, BodyLen, HeaderBytes, LE32, WellFormedBody, BodyOpcode;
    var trailer := LE32(crc(Covered(header, body, true)));
    var frame := FrameBytes(header, body, true, crc);
    var buf := frame + suffix;
    FrameLength(header, body, true, crc);
    assert buf[..MSG_HEADER_LEN] == HeaderBytes(header) == HeaderBytes(header) + [];
    ParseHeaderOf(header, [], maxLen);
    assert buf[MSG_HEADER_LEN..|frame|] == BodyBytes(body) + trailer;
    TrailerChangesBody(body, trailer);
  }

  lemma TrailerChangesBody(body: MessageBody, trailer: bytes)
    requires WellFormedBody(body) && !body.MsgBody? && |trailer| == 4
    ensures ParseBody(BodyOpcode(body), BodyBytes(body) + trailer) != Ok(body)
  {
    hide ParseReply, ReplyBytes, ParseQuery, QueryBytes, ParseCompressed, CompressedBytes, WellFormedReply,
      WellFormedQuery;
    match body
    case ReplyBody(r) =>
      var longer := ReplyBytes(r) + trailer;
      ParseReplyOf(r);
      assert longer[..|ReplyBytes(r)|] == ReplyBytes(r);
      if ParseReply(longer).Ok? {
        ReplyPrefixesRejected(longer, |ReplyBytes(r)|);
      }
    case CompressedBody(c) =>
      CompressedTrailer(c, trailer);
      ParseCompressedOf(c.(payload := c.payload + trailer));
    case QueryBody(q) =>
      if ParseQuery(QueryBytes(q) + trailer) == Ok(q) {
        ReencodeQuery(QueryBytes(q) + trailer);
        QueryLengths(q, trailer);
      }
  }

  lemma CompressedTrailer(c: OpCompressed, trailer: bytes)
    ensures CompressedBytes(c) + trailer == CompressedBytes(c.(payload := c.payload + trailer))
  {
    hide LE32;
  }

  lemma QueryLengths(q: OpQuery, trailer: bytes)
    ensures |LE32(q.flags) + (QueryBytes(q) + trailer)[4..]| == |QueryBytes(q)| + |trailer|
  {
    hide LE32;
  }
}
