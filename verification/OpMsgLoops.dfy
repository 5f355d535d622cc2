/** The OP_MSG parser and encoder as they run: the section loop, the document
    loop and the appending encoder (mongowire/src/messages/op_msg.rs). */
module OpMsgLoops {
  import opened Bytes
  import opened Text
  import opened Buffer
  import opened Decode
  import opened Documents
  import opened Decoder
  import opened OpMsgCodec
  import opened OpMsgTheorems

  // ------------------------------------------------------------ parsing

  method TakeDocumentsLoop(body: bytes, start: nat, end: nat) returns (r: Result<seq<bytes>, ProtocolError>)
    requires start <= end <= |body|
    ensures r == TakeDocuments(body, start, end)
  {
    hide TakeDocument;
    var offset := start;
    var rest := end - offset;
    var documents := [];
    PrependNothing([], TakeDocuments(body, start, end));
    while rest != 0
      invariant start <= offset <= end && rest == end - offset
      invariant TakeDocuments(body, start, end) == Prepend(documents, TakeDocuments(body, offset, end))
    {
      var taken := TakeDocument(body, offset, end);
      if taken.Err? {
        return Err(taken.error);
      }
      var (doc, next) := taken.value;
      PrependTwice(documents, [doc], TakeDocuments(body, next, end));
      rest := rest - (next - offset);
      offset := next;
      documents := documents + [doc];
    }
    PrependNothing(documents, TakeDocuments(body, start, end));
    return Ok(documents);
  }

  method TakeSequenceLoop(body: bytes, offset: nat, end: nat)
    returns (r: Result<(DocumentSequence, nat), ProtocolError>)
    requires end <= |body|
    ensures r == TakeSequence(body, offset, end)
  {
    hide TakeDocuments, ValidUtf8;
    if offset > end {
      return Err(InvalidOpMsg(CursorOverran));
    }
    if end - offset < 4 {
      return Err(InvalidOpMsg(TruncatedSectionSize));
    }
    var size := U32(body[offset..]) - 4;
    if size < 5 {
      return Err(InvalidOpMsg(SectionTooSmall));
    }
    if size > end - offset - 4 {
      return Err(InvalidOpMsg(SectionExceedsMessage));
    }
    var start := offset + 4;
    var secEnd := start + size;
    var section := body[start..secEnd];
    var n := FindNul(section);
    if n == |section| {
      return Err(InvalidOpMsg(TruncatedIdentifier));
    }
    if !ValidUtf8(section[..n]) {
      return Err(InvalidOpMsg(IdentifierNotUtf8));
    }
    var docs := TakeDocumentsLoop(body, start + n + 1, secEnd);
    if docs.Err? {
      return Err(docs.error);
    }
    return Ok((DocumentSequence(section[..n], docs.value), secEnd));
  }

  /** The section loop over offset, body document and sequences. */
  method RunSectionsLoop(body: bytes, end: nat) returns (r: Result<Cursor, ProtocolError>)
    requires end <= |body|
    ensures r == RunSections(body, end, Cursor(4, None, []))
  {
    hide TakeDocument, TakeSequence;
    var offset: nat := 4;
    var bodyDoc: Option<bytes> := None;
    var sequences: seq<DocumentSequence> := [];
    while true
      invariant RunSections(body, end, Cursor(4, None, [])) ==
                RunSections(body, end, Cursor(offset, bodyDoc, sequences))
      decreases if offset < |body| then |body| - offset else 0
    {
      if offset >= |body| {
        return Err(InvalidOpMsg(TruncatedSectionKind));
      }
      ghost var c := Cursor(offset, bodyDoc, sequences);
      var kind := body[offset];
      offset := offset + 1;
      if kind == 0 {
        if bodyDoc.Some? {
          return Err(InvalidOpMsg(MultipleBodies));
        }
        if sequences != [] {
          return Err(InvalidOpMsg(BodyNotFirst));
        }
        var taken := TakeDocument(body, offset, end);
        if taken.Err? {
          return Err(taken.error);
        }
        bodyDoc := Some(taken.value.0);
        offset := taken.value.1;
      } else if kind == 1 {
        var taken := TakeSequenceLoop(body, offset, end);
        if taken.Err? {
          return Err(taken.error);
        }
        sequences := sequences + [taken.value.0];
        offset := taken.value.1;
      } else {
        return Err(InvalidOpMsg(UnknownSectionKind));
      }
      assert SectionStep(body, end, c) == Ok(Cursor(offset, bodyDoc, sequences));
      if offset == end {
        return Ok(Cursor(offset, bodyDoc, sequences));
      }
    }
  }

  function WithNames(names: set<Str>, r: Result<set<Str>, Error>): Result<set<Str>, Error> {
    if r.Ok? then Ok(names + r.value) else r
  }

  lemma WithNamesTwice(a: set<Str>, b: set<Str>, r: Result<set<Str>, Error>)
    ensures WithNames(a, WithNames(b, r)) == WithNames(a + b, r)
    ensures WithNames({}, r) == r
  {
    if r.Ok? {
      assert a + (b + r.value) == a + b + r.value;
      assert {} + r.value == r.value;
    }
  }

  lemma NamesStep(doc: bytes, offset: nat)
    ensures var step := ScanNext(doc, offset);
            && (step.Err? ==> FieldNames(doc, offset) == Err(step.error))
            && (step == Ok(End) ==> FieldNames(doc, offset) == Ok({}))
            && (step.Ok? && step.value.Item? ==>
                  FieldNames(doc, offset) == WithNames({step.value.name}, FieldNames(doc, step.value.next)))
  {
    hide ScanNext;
  }

  method CollectFieldNames(doc: bytes) returns (r: Result<set<Str>, Error>)
    ensures r == FieldNames(doc, 0)
  {
    hide ScanNext, FieldNames;
    WithNamesTwice({}, {}, FieldNames(doc, 0));
    var scanner := new Scanner(doc);
    var names: set<Str> := {};
    while true
      invariant scanner.Valid() && scanner.parent == doc
      invariant FieldNames(doc, 0) == WithNames(names, FieldNames(doc, scanner.offset))
      decreases |Body(doc)| - scanner.offset
    {
      ghost var at := scanner.offset;
      var step := scanner.Next();
      NamesStep(doc, at);
      if step.Err? {
        return Err(step.error);
      }
      if step.value.None? {
        return Ok(names);
      }
      WithNamesTwice(names, {step.value.value.0}, FieldNames(doc, scanner.offset));
      names := names + {step.value.value.0};
    }
  }

  method NewSectionsLoop(body: bytes, sequences: seq<DocumentSequence>) returns (r: Result<Sections, ProtocolError>)
    ensures r == NewSections(body, sequences)
  {
    hide FieldNames;
    if sequences == [] {
      return Ok(Sections(body, sequences));
    }
    var names := CollectFieldNames(body);
    if names.Err? {
      return Err(BsonFailure(names.error));
    }
    for i := 0 to |sequences|
      invariant CheckIdentifiers(sequences, names.value) == CheckIdentifiers(sequences[i..], names.value)
    {
      var id := sequences[i].identifier;
      assert sequences[i..][0] == sequences[i] && sequences[i..][1..] == sequences[i + 1..];
      if id == [] {
        return Err(InvalidOpMsg(EmptyIdentifier));
      }
      if 0 in id {
        return Err(InvalidOpMsg(NulInIdentifier));
      }
      if id in names.value {
        return Err(InvalidOpMsg(DuplicateIdentifier));
      }
    }
    return Ok(Sections(body, sequences));
  }

  method ParseBody(body: bytes) returns (r: Result<OpMsg, ProtocolError>)
    ensures r == ParseOpMsg(body)
  {
    hide RunSections, NewSections, U32;
    if |body| < 5 {
      return Err(InvalidOpMsg(BodyTooShort));
    }
    var flags := ParseFlags(U32(body));
    if flags.Err? {
      return Err(flags.error);
    }
    var checksummed := flags.value.checksumPresent;
    if |body| < 6 + (if checksummed then 4 else 0) {
      return Err(InvalidOpMsg(BodyTooShort));
    }
    var end := |body| - (if checksummed then 4 else 0);
    var c := RunSectionsLoop(body, end);
    if c.Err? {
      return Err(c.error);
    }
    var checksum := if checksummed then Some(U32(body[end..])) else None;
    if c.value.body.None? {
      return Err(InvalidOpMsg(NoBody));
    }
    var sections := NewSectionsLoop(c.value.body.value, c.value.sequences);
    if sections.Err? {
      return Err(sections.error);
    }
    return Ok(OpMsg(flags.value, sections.value, checksum));
  }

  // ------------------------------------------------------------ encoding

  lemma {:induction false} ConcatAppend(docs: seq<bytes>, doc: bytes)
    ensures Concat(docs + [doc]) == Concat(docs) + doc
  {
    if docs == [] {
      assert docs + [doc] == [doc];
      assert [doc][1..] == [];
    } else {
      ConcatAppend(docs[1..], doc);
      assert (docs + [doc])[1..] == docs[1..] + [doc];
    }
  }

  /** Append documents back to back. */
  method PutDocuments(docs: seq<bytes>, out: ByteBuffer)
    modifies out
    ensures out.data == old(out.data) + Concat(docs)
  {
    for i := 0 to |docs|
      invariant out.data == old(out.data) + Concat(docs[..i])
    {
      ConcatAppend(docs[..i], docs[i]);
      assert docs[..i] + [docs[i]] == docs[..i + 1];
      out.PutBytes(docs[i]);
    }
    assert docs[..|docs|] == docs;
  }

  /** A kind-1 section with its kind byte. */
  method PutSequence(s: DocumentSequence, out: ByteBuffer)
    modifies out
    ensures out.data == old(out.data) + ([1] + SequenceBytes(s))
  {
    hide LE32, Concat, DocumentsLen;
    DocumentsLenIsLength(s.documents);
    out.PutU8(1);
    out.PutBytes(LE32(4 + |s.identifier| + 1 + DocumentsLen(s.documents)));
    out.PutBytes(s.identifier);
    out.PutU8(0);
    PutDocuments(s.documents, out);
    assert SequenceBytes(s) == LE32(4 + |s.identifier| + 1 + DocumentsLen(s.documents))
                               + (s.identifier + ([0] + Concat(s.documents)));
  }

  method PutSequences(ss: seq<DocumentSequence>, out: ByteBuffer)
    modifies out
    ensures out.data == old(out.data) + SequencesBytes(ss)
  {
    hide SequenceBytes;
    for i := 0 to |ss|
      invariant out.data == old(out.data) + SequencesBytes(ss[..i])
    {
      SequencesAppend(ss[..i], ss[i]);
      assert ss[..i] + [ss[i]] == ss[..i + 1];
      PutSequence(ss[i], out);
    }
    assert ss[..|ss|] == ss;
  }

  method EncodeBody(m: OpMsg, out: ByteBuffer)
    modifies out
    ensures out.data == old(out.data) + OpMsgBytes(m)
  {
    hide LE32, SequencesBytes;
    out.PutBytes(LE32(FlagBits(m.flags)));
    out.PutU8(0);
    out.PutBytes(m.sections.body);
    PutSequences(m.sections.sequences, out);
    if m.checksum.Some? {
      out.PutBytes(LE32(m.checksum.value));
    }
  }
}
