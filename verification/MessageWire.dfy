/** The message formats in literal positions and numbers, and exactly which bytes
    are accepted (mongo_common/src/consts.rs, mongowire/src/messages/header.rs,
    mongowire/src/messages/op_query.rs, mongowire/src/messages/op_reply.rs,
    mongowire/src/messages/op_compressed.rs, mongowire/src/framing.rs). */
module MessageWire {
  import opened Bytes
  import opened Text
  import opened Io
  import opened OpMsgCodec
  import opened LegacyCodec
  import opened Messages
  import opened Framing

  // ------------------------------------------------------------ header

  predicate KnownOpcode(code: int) {
    code == 1 || 2001 <= code <= 2007 || code == 2012 || code == 2013
  }

  lemma OpcodeNumbers()
    ensures OpcodeNumber(Reply) == 1 && OpcodeNumber(Query) == 2004
    ensures OpcodeNumber(Compressed) == 2012 && OpcodeNumber(Msg) == 2013
    ensures OpcodeNumber(Update) == 2001 && OpcodeNumber(Insert) == 2002 && OpcodeNumber(Reserved) == 2003
    ensures OpcodeNumber(GetMore) == 2005 && OpcodeNumber(Delete) == 2006 && OpcodeNumber(KillCursors) == 2007
  {
  }

  lemma OpcodeIff(code: i32)
    ensures OpcodeOf(code).Some? <==> KnownOpcode(code)
  {
  }

  /** A header is accepted exactly when its sixteen bytes are there, its length
      is at least sixteen and within both limits, and its opcode is known. Its
      fields are the four numbers in order. */
  lemma HeaderIff(b: bytes, maxLen: i32)
    ensures ParseHeader(b, maxLen).Ok? <==>
            |b| >= 16 && 16 <= I32(b) <= maxLen && I32(b) <= 48_000_000 && KnownOpcode(I32(b[12..]))
    ensures ParseHeader(b, maxLen).Ok? ==>
              var h := ParseHeader(b, maxLen).value;
              && h.messageLength == I32(b) && h.requestId == I32(b[4..]) && h.responseTo == I32(b[8..])
              && OpcodeNumber(h.opcode) == I32(b[12..])
    ensures |b| >= 16 && I32(b) >= 16 && (I32(b) > maxLen || I32(b) > 48_000_000) ==>
              ParseHeader(b, maxLen) == Err(MessageTooLarge(I32(b), if I32(b) > maxLen then maxLen else 48_000_000))
  {
    hide I32, OpcodeOf, OpcodeNumber;
    if |b| >= 16 {
      OpcodeIff(I32(b[12..]));
      OpcodeRoundTrip(Msg, I32(b[12..]));
    }
  }

  /** Length, id, id answered and opcode stand at 0, 4, 8 and 12. */
  lemma HeaderLayout(h: Header)
    ensures var b := HeaderBytes(h);
            && |b| == 16 && I32(b) == h.messageLength && I32(b[4..]) == h.requestId && I32(b[8..]) == h.responseTo
            && I32(b[12..]) == OpcodeNumber(h.opcode)
  {
    hide I32, HeaderBytes, OpcodeNumber;
    HeaderFields(h, []);
    assert HeaderBytes(h) + [] == HeaderBytes(h);
  }

  // ------------------------------------------------------------ OP_MSG

  /** Kind byte 0 and the body, then kind byte 1, size, name and documents for
      each sequence; the size counts itself. */
  lemma SectionLayout(body: bytes, id: Str, docs: seq<bytes>)
    ensures SectionsBytes(Sections(body, [])) == [0] + body
    ensures SectionsBytes(Sections(body, [DocumentSequence(id, docs)])) ==
            [0] + body + ([1] + (LE32(4 + |id| + 1 + |Concat(docs)|) + id + [0] + Concat(docs)))
  {
    hide LE32, Concat;
    var s := DocumentSequence(id, docs);
    assert SequencesBytes([s][1..]) == [];
    assert SequencesBytes([s]) == [1] + SequenceBytes(s) + [];
  }

  // ------------------------------------------------------------ OP_REPLY, OP_QUERY, OP_COMPRESSED

  lemma ReplyLayout(m: OpReply)
    requires 0 <= m.responseFlags < 16 && |m.documents| <= I32_MAX
    ensures var b := ReplyBytes(m);
            && |b| >= 20 && I32(b) == m.responseFlags && I64(b[4..]) == m.cursorId
            && I32(b[12..]) == m.startingFrom && I32(b[16..]) == |m.documents| && b[20..] == Concat(m.documents)
  {
    hide LE32, LE64, I32, I64, Concat;
    var t4 := Concat(m.documents);
    var t3 := LE32(|m.documents|) + t4;
    var t2 := LE32(m.startingFrom) + t3;
    var t1 := LE64(m.cursorId) + t2;
    var b := ReplyBytes(m);
    assert b == LE32(m.responseFlags) + t1;
    assert b[4..] == t1 && b[12..] == t2 && b[16..] == t3 && b[20..] == t4;
    LE32RoundTrip(m.responseFlags, t1);
    LE64RoundTrip(m.cursorId, t2);
    LE32RoundTrip(m.startingFrom, t3);
    LE32RoundTrip(|m.documents|, t4);
  }

  /** Bits 0 to 3 of a reply's flags are kept. */
  lemma ReplyFlagsKept(raw: i32)
    ensures 0 <= ReplyFlags(raw) < 16 && (raw - ReplyFlags(raw)) % 16 == 0
  {
  }

  lemma QueryLayout(m: OpQuery)
    requires 0 <= m.flags < 256
    ensures var b := QueryBytes(m);
            var n := |m.fullCollectionName|;
            && |b| >= n + 13 && I32(b) == m.flags && b[4..4 + n] == m.fullCollectionName && b[4 + n] == 0
            && I32(b[n + 5..]) == m.numberToSkip && I32(b[n + 9..]) == m.numberToReturn
            && b[n + 13..] == m.query + (if m.selector.Some? then m.selector.value else [])
  {
    hide LE32, I32;
    var n := |m.fullCollectionName|;
    var t3 := m.query + SelectorBytes(m);
    var t2 := LE32(m.numberToReturn) + t3;
    var t1 := LE32(m.numberToSkip) + t2;
    var b := QueryBytes(m);
    assert b == LE32(m.flags) + (m.fullCollectionName + [0] + t1);
    assert b[n + 5..] == t1 && b[n + 9..] == t2 && b[n + 13..] == t3;
    LE32RoundTrip(m.flags, m.fullCollectionName + [0] + t1);
    LE32RoundTrip(m.numberToSkip, t2);
    LE32RoundTrip(m.numberToReturn, t3);
  }

  /** Bits 1 to 7 of a query's flags are kept. */
  lemma QueryFlagsKept(raw: i32)
    ensures 0 <= QueryFlags(raw) < 256 && QueryFlags(raw) % 2 == 0
    ensures (raw - QueryFlags(raw)) % 256 == 0 || (raw - QueryFlags(raw)) % 256 == 1
  {
  }

  /** OP_QUERY accepts exactly the bodies of well-formed queries, whatever the
      unknown flag bits. */
  lemma QueryIff(body: bytes, m: OpQuery)
    ensures ParseQuery(body) == Ok(m) <==>
            |body| >= 4 && WellFormedQuery(m) && m.flags == QueryFlags(I32(body)) && body[4..] == QueryBytes(m)[4..]
  {
    hide LE32, I32, ParseQuery, WellFormedQuery, QueryFlags;
    if ParseQuery(body) == Ok(m) {
      ReencodeQuery(body);
      QueryFlagWord(body);
      assert QueryBytes(m)[4..] == body[4..];
    }
    if |body| >= 4 && WellFormedQuery(m) && m.flags == QueryFlags(I32(body)) && body[4..] == QueryBytes(m)[4..] {
      ParseQueryOf(m);
      QueryFlagsOnly(body, QueryBytes(m));
      QueryFlagWord(body);
    }
  }

  lemma QueryFlagWord(body: bytes)
    requires ParseQuery(body).Ok?
    ensures |body| >= 4 && ParseQuery(body).value.flags == QueryFlags(I32(body))
  {
    hide ReadCString, TakeOne, ValidUtf8, QueryFlags;
    assert I32(body[..4]) == I32(body);
  }

  /** Behind the flag word the parser does not look at it. */
  lemma QueryFlagsOnly(a: bytes, b: bytes)
    requires |a| >= 4 && |b| >= 4 && a[4..] == b[4..] && ParseQuery(b).Ok?
    ensures ParseQuery(a).Ok? && ParseQuery(b).value == ParseQuery(a).value.(flags := ParseQuery(b).value.flags)
  {
    hide ReadCString, TakeOne, ValidUtf8, QueryFlags, U32;
  }

  lemma CompressorIds()
    ensures CompressorByte(Noop) == 0 && CompressorByte(Snappy) == 1
    ensures CompressorByte(Zlib) == 2 && CompressorByte(Zstd) == 3
    ensures forall id: byte :: CompressorOf(id).Some? <==> id <= 3
  {
  }

  /** OP_COMPRESSED: opcode, size, compressor, payload; accepted exactly for a
      known opcode, a size that is not negative and a known compressor. */
  lemma CompressedIff(b: bytes)
    ensures ParseCompressed(b).Ok? <==> |b| >= 9 && KnownOpcode(I32(b)) && I32(b[4..]) >= 0 && b[8] <= 3
    ensures ParseCompressed(b).Ok? ==>
              var m := ParseCompressed(b).value;
              && OpcodeNumber(m.original) == I32(b) && m.uncompressedSize == I32(b[4..])
              && CompressorByte(m.compressor) == b[8] && m.payload == b[9..]
  {
    hide OpcodeOf, OpcodeNumber, U32;
    if |b| >= 8 {
      FirstWord(b);
      FirstWord(b[4..]);
      OpcodeIff(I32(b));
      OpcodeRoundTrip(Msg, I32(b));
      assert b[4..][4..] == b[8..];
      if |b| >= 9 {
        assert b[8..][1..] == b[9..];
      }
    } else if |b| >= 4 {
      FirstWord(b);
    }
  }

  lemma FirstWord(b: bytes)
    requires |b| >= 4
    ensures ReadI32(b) == Ok((I32(b), b[4..]))
  {
    assert I32(b[..4]) == I32(b);
  }

  /** Unwrapping succeeds exactly for an uncompressed-size field that is right
      and within the limit, the enabled compressor, no nesting, and a body that
      parses under the original opcode. */
  lemma UnwrapIff(m: OpCompressed, maxLen: i32)
    ensures Unwrap(m, maxLen).Ok? <==>
            && 0 <= m.uncompressedSize <= maxLen && m.original != Compressed && m.compressor == Noop
            && |m.payload| == m.uncompressedSize && ParseBody(m.original, m.payload).Ok?
    ensures Unwrap(m, maxLen).Ok? ==> Unwrap(m, maxLen) == ParseBody(m.original, m.payload)
  {
    hide ParseBody;
  }

  // ------------------------------------------------------------ frames

  /** The checksum gate: an OP_MSG frame with bit 0 of its flag word set must end
      with the CRC of everything before. */
  predicate Intact(frame: bytes, opcode: Opcode, crc: Crc)
    requires |frame| >= 16
  {
    opcode == Msg && |frame| >= 20 && U32(frame[16..]) % 2 == 1 ==>
      |frame| >= 26 && crc(frame[..|frame| - 4]) == U32(frame[|frame| - 4..])
  }

  /** The framer delivers a message exactly when the buffer begins with an
      accepted header, the whole frame is there and intact, and its body parses. */
  lemma MessageIff(buf: bytes, maxLen: i32, crc: Crc, h: Header, b: MessageBody, rest: bytes)
    ensures ParseMessage(buf, maxLen, crc) == Message(h, b, rest) <==>
            && ParseHeader(buf, maxLen) == Ok(h)
            && h.messageLength <= |buf| && rest == buf[h.messageLength..]
            && Intact(buf[..h.messageLength], h.opcode, crc)
            && ParseBody(h.opcode, buf[16..h.messageLength]) == Ok(b)
  {
    hide ParseBody, U32, OpcodeOf;
    HeaderOfPrefix(buf, maxLen);
    HeaderIff(buf, maxLen);
  }

  /** It fails on a header that is refused or a frame that is not intact, leaving
      the buffer as it is, and on a body that does not parse, taking the frame. */
  lemma FailureIff(buf: bytes, maxLen: i32, crc: Crc, rest: bytes)
    ensures (exists e :: ParseMessage(buf, maxLen, crc) == Failure(e, rest)) <==>
            && |buf| >= 16
            && match ParseHeader(buf, maxLen)
               case Err(_) => rest == buf
               case Ok(h) =>
                 && h.messageLength <= |buf|
                 && if !Intact(buf[..h.messageLength], h.opcode, crc) then rest == buf
                    else ParseBody(h.opcode, buf[16..h.messageLength]).Err? && rest == buf[h.messageLength..]
  {
    hide ParseBody, U32, OpcodeOf;
    HeaderOfPrefix(buf, maxLen);
    HeaderIff(buf, maxLen);
    var o := ParseMessage(buf, maxLen, crc);
    assert o.Failure? ==> o == Failure(o.error, o.rest);
  }

  /** It waits exactly while the header, or the frame an accepted header
      announces, is incomplete. */
  lemma WaitsIff(buf: bytes, maxLen: i32, crc: Crc)
    ensures ParseMessage(buf, maxLen, crc).NeedMore? <==>
            |buf| < 16 || (ParseHeader(buf, maxLen).Ok? && |buf| < ParseHeader(buf, maxLen).value.messageLength)
  {
    hide ParseBody, U32, OpcodeOf, CheckFrame;
    HeaderOfPrefix(buf, maxLen);
    HeaderIff(buf, maxLen);
  }

  lemma HeaderOfPrefix(buf: bytes, maxLen: i32)
    ensures |buf| >= 16 ==> ParseHeader(buf[..16], maxLen) == ParseHeader(buf, maxLen)
  {
    hide OpcodeOf;
    if |buf| >= 16 {
      assert forall i :: 0 <= i < 16 ==> buf[..16][i] == buf[i];
      assert I32(buf[..16]) == I32(buf) && I32(buf[..16][4..]) == I32(buf[4..]);
      assert I32(buf[..16][8..]) == I32(buf[8..]) && I32(buf[..16][12..]) == I32(buf[12..]);
    }
  }
}
