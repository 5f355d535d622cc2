/** OP_MSG bodies: flags, sections, optional checksum
    (mongowire/src/messages/op_msg.rs). */
module OpMsgCodec {
  import opened Bytes
  import opened Text
  import opened Io
  import opened ScalarCodec
  import opened BsonModel
  import opened Decode
  import opened Documents

  // ------------------------------------------------------------ errors

  /** Why an OP_MSG is rejected. */
  datatype MsgFault =
    | BodyTooShort
    | UnknownRequiredFlags
    | TruncatedSectionKind
    | UnknownSectionKind
    | MultipleBodies
    | BodyNotFirst
    | CursorOverran
    | TruncatedDocument
    | BadDocumentLength
    | TruncatedSectionSize
    | SectionTooSmall
    | SectionExceedsMessage
    | TruncatedIdentifier
    | IdentifierNotUtf8
    | NoBody
    | EmptyIdentifier
    | NulInIdentifier
    | DuplicateIdentifier
    | ChecksumFrameTooShort
    | ChecksumAlreadyPresent
    | NegativeUncompressedSize
    | NestedCompression

  datatype ProtocolError =
    | InvalidHeader(why: string)
    | MessageTooLarge(size: int, max: int)
    | UnsupportedOpcode(code: int)
    | InvalidOpMsg(fault: MsgFault)
    | InvalidBody(why: string)
    | ChecksumMismatch(expected: u32, computed: u32)
    | UnsupportedCompressor(id: byte)
    | CompressionFailed
    | DecompressedSizeMismatch(wanted: int, actual: int)
    | BsonFailure(cause: Error)
    | ReadFailure(short: ReadError)

  // ------------------------------------------------------------ data

  datatype MsgFlags = MsgFlags(checksumPresent: bool, moreToCome: bool, exhaustAllowed: bool)

  datatype DocumentSequence = DocumentSequence(identifier: Str, documents: seq<bytes>)

  datatype Sections = Sections(body: bytes, sequences: seq<DocumentSequence>)

  datatype OpMsg = OpMsg(flags: MsgFlags, sections: Sections, checksum: Option<u32>)

  // ------------------------------------------------------------ flags

  function FlagBits(f: MsgFlags): (raw: u32) {
    (if f.checksumPresent then 1 else 0) + (if f.moreToCome then 2 else 0) + (if f.exhaustAllowed then 0x1_0000 else 0)
  }

  /** Unknown bits among 0-15 are an error; unknown bits among 16-31 are cleared. */
  function ParseFlags(raw: u32): Result<MsgFlags, ProtocolError> {
    if raw % 0x1_0000 / 4 != 0 then Err(InvalidOpMsg(UnknownRequiredFlags))
    else Ok(MsgFlags(raw % 2 == 1, raw / 2 % 2 == 1, raw / 0x1_0000 % 2 == 1))
  }

  lemma ParseFlagsOf(f: MsgFlags)
    ensures ParseFlags(FlagBits(f)) == Ok(f)
  {
  }

  /** Reading flags and writing them back gives the same word exactly when no
      unknown optional bit was set. */
  lemma FlagsRoundTripIff(raw: u32)
    requires ParseFlags(raw).Ok?
    ensures FlagBits(ParseFlags(raw).value) == raw <==> raw / 0x2_0000 == 0
  {
    var low: int, high: int := raw % 0x1_0000, raw / 0x1_0000;
    assert low < 4;
    assert raw % 2 == low % 2 && raw / 2 == low / 2 + 2 * (0x4000 * high);
    LowBits(low / 2, 0x4000 * high);
    assert raw / 0x2_0000 == high / 2;
  }

  lemma LowBits(b: int, k: int)
    requires 0 <= b <= 1
    ensures (b + 2 * k) % 2 == b
  {
  }

  // ------------------------------------------------------------ sections

  /** Not one of the two errors that mean the cursor left the sections. */
  predicate Inside(e: ProtocolError) {
    e != InvalidOpMsg(CursorOverran) && e != InvalidOpMsg(TruncatedSectionKind)
  }

  /** One length-prefixed document in `offset..end` and the offset behind it. */
  function TakeDocument(body: bytes, offset: nat, end: nat): (r: Result<(bytes, nat), ProtocolError>)
    requires end <= |body|
    ensures r.Ok? ==> offset + MIN_DOC_LEN <= r.value.1 <= end
                      && r.value.0 == body[offset..r.value.1] && ValidDocument(r.value.0)
    ensures r.Err? && offset <= end ==> Inside(r.error)
  {
    if offset > end then Err(InvalidOpMsg(CursorOverran))
    else if end - offset < 4 then Err(InvalidOpMsg(TruncatedDocument))
    else
      var len := I32(body[offset..]);
      if len < MIN_DOC_LEN || len > end - offset then Err(InvalidOpMsg(BadDocumentLength))
      else
        match FromBytes(body[offset..offset + len])
        case Err(e) => Err(BsonFailure(e))
        case Ok(doc) => Ok((doc, offset + len))
  }

  /** Documents back to back until exactly `end`. */
  function TakeDocuments(body: bytes, offset: nat, end: nat): (r: Result<seq<bytes>, ProtocolError>)
    requires offset <= end <= |body|
    ensures r.Err? ==> Inside(r.error)
    decreases end - offset
  {
    if offset == end then Ok([])
    else
      var (doc, next) :- TakeDocument(body, offset, end);
      var docs :- TakeDocuments(body, next, end);
      Ok([doc] + docs)
  }

  /** A kind-1 section whose size field is at `offset`. */
  function TakeSequence(body: bytes, offset: nat, end: nat): (r: Result<(DocumentSequence, nat), ProtocolError>)
    requires end <= |body|
    ensures r.Ok? ==> offset + 9 <= r.value.1 <= end
    ensures r.Err? && offset <= end ==> Inside(r.error)
  {
    if offset > end then Err(InvalidOpMsg(CursorOverran))
    else if end - offset < 4 then Err(InvalidOpMsg(TruncatedSectionSize))
    else
      var size := U32(body[offset..]) - 4;
      if size < 5 then Err(InvalidOpMsg(SectionTooSmall))
      else if size > end - offset - 4 then Err(InvalidOpMsg(SectionExceedsMessage))
      else
        var start := offset + 4;
        var secEnd := start + size;
        var section := body[start..secEnd];
        var n := FindNul(section);
        if n == |section| then Err(InvalidOpMsg(TruncatedIdentifier))
        else if !ValidUtf8(section[..n]) then Err(InvalidOpMsg(IdentifierNotUtf8))
        else
          var docs :- TakeDocuments(body, start + n + 1, secEnd);
          Ok((DocumentSequence(section[..n], docs), secEnd))
  }

  /** The section loop's variables. */
  datatype Cursor = Cursor(offset: nat, body: Option<bytes>, sequences: seq<DocumentSequence>)

  /** One iteration of the section loop. */
  function SectionStep(body: bytes, end: nat, c: Cursor): (r: Result<Cursor, ProtocolError>)
    requires end <= |body|
    ensures r.Ok? ==> c.offset < r.value.offset <= end && c.offset < |body|
  {
    if c.offset >= |body| then Err(InvalidOpMsg(TruncatedSectionKind))
    else
      var kind := body[c.offset];
      if kind == 0 then
        if c.body.Some? then Err(InvalidOpMsg(MultipleBodies))
        else if c.sequences != [] then Err(InvalidOpMsg(BodyNotFirst))
        else
          var (doc, next) :- TakeDocument(body, c.offset + 1, end);
          Ok(Cursor(next, Some(doc), c.sequences))
      else if kind == 1 then
        var (s, next) :- TakeSequence(body, c.offset + 1, end);
        Ok(Cursor(next, c.body, c.sequences + [s]))
      else
        Err(InvalidOpMsg(UnknownSectionKind))
  }

  function RunSections(body: bytes, end: nat, c: Cursor): Result<Cursor, ProtocolError>
    requires end <= |body|
    decreases if c.offset < |body| then |body| - c.offset else 0
  {
    var c' :- SectionStep(body, end, c);
    if c'.offset == end then Ok(c') else RunSections(body, end, c')
  }

  // ------------------------------------------------------------ validation

  /** The names of all top-level fields from `offset` on. */
  function FieldNames(doc: bytes, offset: nat): Result<set<Str>, Error>
    decreases |Body(doc)| - offset
  {
    var step :- ScanNext(doc, offset);
    match step
    case End => Ok({})
    case Item(name, _, next) =>
      var names :- FieldNames(doc, next);
      Ok({name} + names)
  }

  function CheckIdentifiers(sequences: seq<DocumentSequence>, names: set<Str>): Result<(), ProtocolError> {
    if sequences == [] then Ok(())
    else
      var id := sequences[0].identifier;
      if id == [] then Err(InvalidOpMsg(EmptyIdentifier))
      else if 0 in id then Err(InvalidOpMsg(NulInIdentifier))
      else if id in names then Err(InvalidOpMsg(DuplicateIdentifier))
      else CheckIdentifiers(sequences[1..], names)
  }

  /** `Sections::new`. */
  function NewSections(body: bytes, sequences: seq<DocumentSequence>): Result<Sections, ProtocolError> {
    if sequences == [] then Ok(Sections(body, sequences))
    else
      match FieldNames(body, 0)
      case Err(e) => Err(BsonFailure(e))
      case Ok(names) =>
        var _ :- CheckIdentifiers(sequences, names);
        Ok(Sections(body, sequences))
  }

  /** `OpMsg::new`: a fresh message never carries a checksum. */
  function NewOpMsg(flags: MsgFlags, body: bytes, sequences: seq<DocumentSequence>): Result<OpMsg, ProtocolError> {
    var sections :- NewSections(body, sequences);
    Ok(OpMsg(flags.(checksumPresent := false), sections, None))
  }

  // ------------------------------------------------------------ parsing

  function ParseOpMsg(body: bytes): Result<OpMsg, ProtocolError> {
    if |body| < 5 then Err(InvalidOpMsg(BodyTooShort)) else
    var flags :- ParseFlags(U32(body));
    var trailer := if flags.checksumPresent then 4 else 0;
    if |body| < 6 + trailer then Err(InvalidOpMsg(BodyTooShort)) else
    var end := |body| - trailer;
    var c :- RunSections(body, end, Cursor(4, None, []));
    if c.body.None? then Err(InvalidOpMsg(NoBody)) else
    var sections :- NewSections(c.body.value, c.sequences);
    Ok(OpMsg(flags, sections, if flags.checksumPresent then Some(U32(body[end..])) else None))
  }

  // ------------------------------------------------------------ encoding

  function Concat(docs: seq<bytes>): bytes {
    if docs == [] then [] else docs[0] + Concat(docs[1..])
  }

  /** A kind-1 section behind its kind byte: size, identifier, documents. */
  function SequenceBytes(s: DocumentSequence): bytes {
    LE32(4 + |s.identifier| + 1 + |Concat(s.documents)|) + s.identifier + [0] + Concat(s.documents)
  }

  function SequencesBytes(ss: seq<DocumentSequence>): bytes {
    if ss == [] then [] else [1] + SequenceBytes(ss[0]) + SequencesBytes(ss[1..])
  }

  function SectionsBytes(s: Sections): bytes {
    [0] + s.body + SequencesBytes(s.sequences)
  }

  function ChecksumBytes(m: OpMsg): bytes {
    if m.checksum.Some? then LE32(m.checksum.value) else []
  }

  function OpMsgBytes(m: OpMsg): bytes {
    LE32(FlagBits(m.flags)) + SectionsBytes(m.sections) + ChecksumBytes(m)
  }

  // ------------------------------------------------------------ declared lengths

  function DocumentsLen(docs: seq<bytes>): nat {
    if docs == [] then 0 else |docs[0]| + DocumentsLen(docs[1..])
  }

  function SequencesLen(ss: seq<DocumentSequence>): nat {
    if ss == [] then 0
    else 1 + 4 + |ss[0].identifier| + 1 + DocumentsLen(ss[0].documents) + SequencesLen(ss[1..])
  }

  /** `OpMsg::body_len`. */
  function OpMsgLen(m: OpMsg): nat {
    4 + (1 + |m.sections.body| + SequencesLen(m.sections.sequences)) + (if m.checksum.Some? then 4 else 0)
  }

  lemma {:induction false} DocumentsLenIsLength(docs: seq<bytes>)
    ensures DocumentsLen(docs) == |Concat(docs)|
  {
    if docs != [] {
      DocumentsLenIsLength(docs[1..]);
    }
  }

  lemma {:induction false} SequencesLenIsLength(ss: seq<DocumentSequence>)
    ensures SequencesLen(ss) == |SequencesBytes(ss)|
  {
    if ss != [] {
      DocumentsLenIsLength(ss[0].documents);
      SequencesLenIsLength(ss[1..]);
    }
  }

  lemma OpMsgLenIsLength(m: OpMsg)
    ensures OpMsgLen(m) == |OpMsgBytes(m)|
  {
    hide LE32, SequencesBytes;
    SequencesLenIsLength(m.sections.sequences);
  }
}
