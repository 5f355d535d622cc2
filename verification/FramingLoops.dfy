/** The framer and the body codecs as they run on buffers
    (mongowire/src/framing.rs, mongowire/src/messages/mod.rs,
    mongowire/src/messages/op_reply.rs, mongowire/src/messages/op_query.rs,
    mongowire/src/messages/op_compressed.rs, mongowire/src/messages/header.rs). */
module FramingLoops {
  import opened Bytes
  import opened Text
  import opened Io
  import opened SliceReader
  import opened Buffer
  import opened ScalarCodec
  import opened Decode
  import opened OpMsgCodec
  import opened LegacyCodec
  import opened Messages
  import opened Framing
  import OpMsgLoops

  // ------------------------------------------------------------ OP_REPLY and OP_QUERY

  method TakeOneFrom(cursor: SliceCursor) returns (r: Result<bytes, ProtocolError>)
    modifies cursor
    ensures match TakeOne(old(cursor.rest))
            case Ok((doc, after)) => r == Ok(doc) && cursor.rest == after
            case Err(e) => r == Err(e)
  {
    hide U32;
    if |cursor.rest| < 4 {
      return Err(InvalidBody("truncated document"));
    }
    var len := I32(cursor.rest);
    if len < MIN_DOC_LEN || len > |cursor.rest| {
      return Err(InvalidBody("invalid document length"));
    }
    var doc := FromBytes(cursor.rest[..len]);
    if doc.Err? {
      return Err(BsonFailure(doc.error));
    }
    var taken := cursor.TakeBytes(len);
    return Ok(doc.value);
  }

  function Then(docs: seq<bytes>, r: Taken<seq<bytes>>): Taken<seq<bytes>> {
    if r.Ok? then Ok((docs + r.value.0, r.value.1)) else r
  }

  lemma ThenTwice(a: seq<bytes>, b: seq<bytes>, r: Taken<seq<bytes>>)
    ensures Then(a, Then(b, r)) == Then(a + b, r) && Then([], r) == r
  {
    if r.Ok? {
      assert a + (b + r.value.0) == a + b + r.value.0;
      assert [] + r.value.0 == r.value.0;
    }
  }

  method ParseReplyBody(body: bytes) returns (r: Result<OpReply, ProtocolError>)
    ensures r == ParseReply(body)
  {
    hide ReadI32, ReadI64, TakeOne, TakeMany;
    var cursor := new SliceCursor(body);
    var flags := cursor.TakeI32();
    if flags.Err? { return Err(ReadFailure(flags.error)); }
    var cursorId := cursor.TakeI64();
    if cursorId.Err? { return Err(ReadFailure(cursorId.error)); }
    var startingFrom := cursor.TakeI32();
    if startingFrom.Err? { return Err(ReadFailure(startingFrom.error)); }
    var number := cursor.TakeI32();
    if number.Err? { return Err(ReadFailure(number.error)); }
    var n := number.value;
    if n < 0 {
      return Err(InvalidBody("negative numberReturned"));
    }
    if n > |cursor.rest| / MIN_DOC_LEN {
      return Err(InvalidBody("numberReturned exceeds the body size"));
    }
    var docs := TakeManyFrom(cursor, n);
    if docs.Err? { return Err(docs.error); }
    if cursor.rest != [] {
      return Err(InvalidBody("trailing bytes after the documents"));
    }
    return Ok(OpReply(ReplyFlags(flags.value), cursorId.value, startingFrom.value, n, docs.value));
  }

  method TakeManyFrom(cursor: SliceCursor, n: nat) returns (r: Result<seq<bytes>, ProtocolError>)
    modifies cursor
    ensures match TakeMany(old(cursor.rest), n)
            case Ok((docs, after)) => r == Ok(docs) && cursor.rest == after
            case Err(e) => r == Err(e)
  {
    hide TakeOne;
    var documents := [];
    ThenTwice([], [], TakeMany(cursor.rest, n));
    for i := 0 to n
      invariant TakeMany(old(cursor.rest), n) == Then(documents, TakeMany(cursor.rest, n - i))
    {
      ghost var before := cursor.rest;
      var doc := TakeOneFrom(cursor);
      if doc.Err? {
        return Err(doc.error);
      }
      assert TakeMany(before, n - i) == Then([doc.value], TakeMany(cursor.rest, n - i - 1));
      ThenTwice(documents, [doc.value], TakeMany(cursor.rest, n - i - 1));
      documents := documents + [doc.value];
    }
    assert documents + [] == documents;
    return Ok(documents);
  }

  method ParseQueryBody(body: bytes) returns (r: Result<OpQuery, ProtocolError>)
    ensures r == ParseQuery(body)
  {
    hide ReadI32, ReadCString, TakeOne, ValidUtf8;
    var cursor := new SliceCursor(body);
    var flags := cursor.TakeI32();
    if flags.Err? { return Err(ReadFailure(flags.error)); }
    var name := cursor.TakeCString();
    if name.Err? { return Err(ReadFailure(name.error)); }
    if name.value == [] {
      return Err(InvalidBody("empty fullCollectionName"));
    }
    if !ValidUtf8(name.value) {
      return Err(InvalidBody("invalid UTF-8 in fullCollectionName"));
    }
    var skip := cursor.TakeI32();
    if skip.Err? { return Err(ReadFailure(skip.error)); }
    var limit := cursor.TakeI32();
    if limit.Err? { return Err(ReadFailure(limit.error)); }
    var query := TakeOneFrom(cursor);
    if query.Err? { return Err(query.error); }
    if cursor.rest == [] {
      return Ok(OpQuery(QueryFlags(flags.value), name.value, skip.value, limit.value, query.value, None));
    }
    var selector := TakeOneFrom(cursor);
    if selector.Err? { return Err(selector.error); }
    if cursor.rest != [] {
      return Err(InvalidBody("trailing bytes after returnFieldsSelector"));
    }
    return Ok(OpQuery(QueryFlags(flags.value), name.value, skip.value, limit.value, query.value, Some(selector.value)));
  }

  // ------------------------------------------------------------ encoding bodies

  method EncodeReplyBody(m: OpReply, out: ByteBuffer)
    modifies out
    ensures out.data == old(out.data) + ReplyBytes(m)
  {
    hide LE32, LE64, Concat;
    out.PutBytes(LE32(m.responseFlags));
    out.PutBytes(LE64(m.cursorId));
    out.PutBytes(LE32(m.startingFrom));
    out.PutBytes(LE32(|m.documents|));
    OpMsgLoops.PutDocuments(m.documents, out);
  }

  method EncodeQueryBody(m: OpQuery, out: ByteBuffer)
    modifies out
    ensures out.data == old(out.data) + QueryBytes(m)
  {
    hide LE32;
    out.PutBytes(LE32(m.flags));
    out.PutBytes(m.fullCollectionName);
    out.PutU8(0);
    out.PutBytes(LE32(m.numberToSkip));
    out.PutBytes(LE32(m.numberToReturn));
    out.PutBytes(m.query);
    if m.selector.Some? {
      out.PutBytes(m.selector.value);
    }
  }

  method EncodeCompressedBody(m: OpCompressed, out: ByteBuffer)
    modifies out
    ensures out.data == old(out.data) + CompressedBytes(m)
  {
    hide LE32;
    out.PutBytes(LE32(OpcodeNumber(m.original)));
    out.PutBytes(LE32(m.uncompressedSize));
    out.PutU8(CompressorByte(m.compressor));
    out.PutBytes(m.payload);
  }

  method EncodeMessageBody(body: MessageBody, out: ByteBuffer)
    modifies out
    ensures out.data == old(out.data) + BodyBytes(body)
  {
    hide OpMsgBytes, ReplyBytes, QueryBytes, CompressedBytes;
    match body {
      case MsgBody(m) => OpMsgLoops.EncodeBody(m, out);
      case ReplyBody(m) => EncodeReplyBody(m, out);
      case QueryBody(m) => EncodeQueryBody(m, out);
      case CompressedBody(m) => EncodeCompressedBody(m, out);
    }
  }

  method EncodeHeader(h: Header, out: ByteBuffer)
    modifies out
    ensures out.data == old(out.data) + HeaderBytes(h)
  {
    hide LE32;
    out.PutBytes(LE32(h.messageLength));
    out.PutBytes(LE32(h.requestId));
    out.PutBytes(LE32(h.responseTo));
    out.PutBytes(LE32(OpcodeNumber(h.opcode)));
  }

  // ------------------------------------------------------------ frames

  method ParseCompressedBody(body: bytes) returns (r: Result<OpCompressed, ProtocolError>)
    ensures r == ParseCompressed(body)
  {
    hide ReadI32;
    var cursor := new SliceCursor(body);
    var code := cursor.TakeI32();
    if code.Err? { return Err(ReadFailure(code.error)); }
    var original := OpcodeOf(code.value);
    if original.None? {
      return Err(UnsupportedOpcode(code.value));
    }
    var size := cursor.TakeI32();
    if size.Err? { return Err(ReadFailure(size.error)); }
    if size.value < 0 {
      return Err(InvalidOpMsg(NegativeUncompressedSize));
    }
    var id := cursor.TakeU8();
    if id.Err? { return Err(ReadFailure(id.error)); }
    var compressor := CompressorOf(id.value);
    if compressor.None? {
      return Err(UnsupportedCompressor(id.value));
    }
    return Ok(OpCompressed(original.value, size.value, compressor.value, cursor.rest));
  }

  method ParseMessageBody(o: Opcode, body: bytes) returns (r: Result<MessageBody, ProtocolError>)
    ensures r == ParseBody(o, body)
  {
    hide ParseOpMsg, ParseQuery, ParseReply, ParseCompressed;
    match o {
      case Msg =>
        var m := OpMsgLoops.ParseBody(body);
        return if m.Ok? then Ok(MsgBody(m.value)) else Err(m.error);
      case Query =>
        var q := ParseQueryBody(body);
        return if q.Ok? then Ok(QueryBody(q.value)) else Err(q.error);
      case Reply =>
        var p := ParseReplyBody(body);
        return if p.Ok? then Ok(ReplyBody(p.value)) else Err(p.error);
      case Compressed =>
        var c := ParseCompressedBody(body);
        return if c.Ok? then Ok(CompressedBody(c.value)) else Err(c.error);
      case _ =>
        return Err(UnsupportedOpcode(OpcodeNumber(o)));
    }
  }

  /** `parse_message`: consume one frame of the buffer, or nothing while it is
      incomplete or fails its checks. */
  method ReadMessage(buf: ByteBuffer, maxLen: i32, crc: Crc)
    returns (r: Result<Option<(Header, MessageBody)>, ProtocolError>)
    modifies buf
    ensures match ParseMessage(old(buf.data), maxLen, crc)
            case NeedMore => r == Ok(None) && buf.data == old(buf.data)
            case Message(h, b, rest) => r == Ok(Some((h, b))) && buf.data == rest
            case Failure(e, rest) => r == Err(e) && buf.data == rest
  {
    hide ParseHeader, ParseBody, CheckFrame;
    if |buf.data| < MSG_HEADER_LEN {
      return Ok(None);
    }
    var header := ParseHeader(buf.data[..MSG_HEADER_LEN], maxLen);
    if header.Err? {
      return Err(header.error);
    }
    HeaderLengthPositive(buf.data[..MSG_HEADER_LEN], maxLen);
    var n := header.value.messageLength;
    if |buf.data| < n {
      return Ok(None);
    }
    var checked := CheckFrame(buf.data[..n], header.value.opcode, crc);
    if checked.Err? {
      return Err(checked.error);
    }
    var frame := buf.data[..n];
    buf.data := buf.data[n..];
    assert frame[MSG_HEADER_LEN..] == old(buf.data)[MSG_HEADER_LEN..n];
    var body := ParseMessageBody(header.value.opcode, frame[MSG_HEADER_LEN..]);
    if body.Err? {
      return Err(body.error);
    }
    return Ok(Some((header.value, body.value)));
  }

  lemma FlagPatch(f: MsgFlags, rest: bytes)
    ensures var word := U32(LE32(FlagBits(f)) + rest);
            word - word % 2 + 1 == FlagBits(f.(checksumPresent := true))
  {
    hide LE32, U32;
    LE32RoundTrip(FlagBits(f), rest);
  }

  /** Setting the checksum bit in the written flag word is writing the message
      with that flag. */
  lemma PatchedFlags(before: bytes, header: Header, m: OpMsg, written: bytes)
    requires written == before + (HeaderBytes(header) + BodyBytes(MsgBody(m)))
    ensures var at := |before| + MSG_HEADER_LEN;
            && at + 4 <= |written|
            && var word := U32(written[at..]);
               written[..at] + LE32(word - word % 2 + 1) + written[at + 4..] ==
               before + Covered(header, MsgBody(m), true)
  {
    hide LE32, U32, HeaderBytes, FlagBits, BodyBytes;
    var at := |before| + MSG_HEADER_LEN;
    var tail := SectionsBytes(m.sections) + ChecksumBytes(m);
    var m' := Flagged(MsgBody(m), true).msg;
    MsgLayout(m);
    MsgLayout(m');
    Reassociate(before, HeaderBytes(header), LE32(FlagBits(m.flags)), tail);
    assert written[at..] == LE32(FlagBits(m.flags)) + tail;
    FlagPatch(m.flags, tail);
    Reassociate(before, HeaderBytes(header), LE32(FlagBits(m'.flags)), tail);
  }

  lemma MsgLayout(m: OpMsg)
    ensures BodyBytes(MsgBody(m)) == LE32(FlagBits(m.flags)) + (SectionsBytes(m.sections) + ChecksumBytes(m))
  {
    hide LE32, FlagBits, SectionsBytes, ChecksumBytes;
  }

  lemma Reassociate(a: bytes, b: bytes, c: bytes, d: bytes)
    ensures var all := a + (b + (c + d));
            && |all| == |a| + |b| + |c| + |d|
            && all[..|a| + |b|] == a + b
            && all[|a| + |b|..] == c + d
            && all[|a| + |b| + |c|..] == d
            && (a + b) + c + d == all
  {
  }

  lemma PlainCovered(header: Header, body: MessageBody, checksum: bool)
    requires !checksum || !body.MsgBody?
    ensures Covered(header, body, checksum) == HeaderBytes(header) + BodyBytes(body)
  {
  }

  /** Header and body, then under `checksum` the flag word patched in place. */
  method WriteCovered(header: Header, body: MessageBody, checksum: bool, out: ByteBuffer)
    modifies out
    ensures out.data == old(out.data) + Covered(header, body, checksum)
  {
    hide LE32, HeaderBytes, BodyBytes, Covered;
    var at := |out.data| + MSG_HEADER_LEN;
    EncodeHeader(header, out);
    EncodeMessageBody(body, out);
    assert out.data == old(out.data) + (HeaderBytes(header) + BodyBytes(body));
    if checksum && body.MsgBody? {
      PatchedFlags(old(out.data), header, body.msg, out.data);
      var word := U32(out.data[at..]);
      out.PutI32LeAt(at, word - word % 2 + 1);
    } else {
      PlainCovered(header, body, checksum);
    }
  }

  /** `encode_message`: header, body, then under `checksum` the patched flag
      word and the CRC of everything written. Earlier bytes stay as they were. */
  method WriteMessage(header: Header, body: MessageBody, checksum: bool, crc: Crc, out: ByteBuffer)
    returns (r: Result<Header, ProtocolError>)
    modifies out
    ensures r.Ok? <==>
            FrameLen(body, checksum) <= MAX_MSG_LEN && !(checksum && body.MsgBody? && body.msg.checksum.Some?)
    ensures r.Ok? ==> r.value == header.(messageLength := FrameLen(body, checksum))
                      && out.data == old(out.data) + FrameBytes(r.value, body, checksum, crc)
    ensures old(out.data) <= out.data
    ensures FrameLen(body, checksum) > MAX_MSG_LEN ==>
              && out.data == old(out.data)
              && var size := if FrameLen(body, checksum) > I32_MAX then I32_MAX else FrameLen(body, checksum);
                 r == Err(MessageTooLarge(size, MAX_MSG_LEN))
    ensures r.Err? && FrameLen(body, checksum) <= MAX_MSG_LEN ==> r == Err(InvalidOpMsg(ChecksumAlreadyPresent))
  {
    hide LE32, HeaderBytes, BodyBytes, BodyLen, Covered;
    var total := MSG_HEADER_LEN + BodyLen(body) + (if checksum then 4 else 0);
    if total > I32_MAX {
      return Err(MessageTooLarge(I32_MAX, MAX_MSG_LEN));
    }
    if total > MAX_MSG_LEN {
      return Err(MessageTooLarge(total, MAX_MSG_LEN));
    }
    var h := header.(messageLength := total);
    var start := |out.data|;
    if checksum && body.MsgBody? && body.msg.checksum.Some? {
      EncodeHeader(h, out);
      EncodeMessageBody(body, out);
      return Err(InvalidOpMsg(ChecksumAlreadyPresent));
    }
    WriteCovered(h, body, checksum, out);
    if checksum {
      assert out.data[start..] == Covered(h, body, true);
      out.PutBytes(LE32(crc(out.data[start..])));
    }
    return Ok(h);
  }
}
