/** What the OP_MSG parser and encoder promise each other
    (mongowire/src/messages/op_msg.rs). */
module OpMsgTheorems {
  import opened Bytes
  import opened Text
  import opened ScalarCodec
  import opened BsonModel
  import opened Decode
  import opened RawValue
  import opened Documents
  import opened OpMsgCodec

  // ------------------------------------------------------------ the loop stays inside

  /** From any cursor below the end, the loop never runs past the end: the two
      defensive errors cannot occur, and an accepted run stops exactly there. */
  lemma {:induction false} SectionLoopStaysInside(body: bytes, end: nat, c: Cursor)
    requires c.offset < end <= |body|
    ensures var r := RunSections(body, end, c);
            && (r.Ok? ==> r.value.offset == end)
            && (r.Err? ==> Inside(r.error))
    decreases |body| - c.offset
  {
    StepStaysInside(body, end, c);
    var r := SectionStep(body, end, c);
    if r.Ok? && r.value.offset != end {
      SectionLoopStaysInside(body, end, r.value);
    }
  }

  lemma StepStaysInside(body: bytes, end: nat, c: Cursor)
    requires c.offset < end <= |body|
    ensures var r := SectionStep(body, end, c);
            && (r.Ok? ==> c.offset < r.value.offset <= end)
            && (r.Err? ==> Inside(r.error))
  {
    hide TakeDocument, TakeSequence;
  }

  // ------------------------------------------------------------ what was accepted

  predicate ValidDocuments(docs: seq<bytes>) {
    forall i :: 0 <= i < |docs| ==> ValidDocument(docs[i])
  }

  lemma {:induction false} TakeDocumentsExact(body: bytes, offset: nat, end: nat)
    requires offset <= end <= |body| && TakeDocuments(body, offset, end).Ok?
    ensures var docs := TakeDocuments(body, offset, end).value;
            Concat(docs) == body[offset..end] && ValidDocuments(docs)
    decreases end - offset
  {
    hide TakeDocument, ValidDocument;
    if offset < end {
      var (doc, next) := TakeDocument(body, offset, end).value;
      TakeDocumentsExact(body, next, end);
      var docs := TakeDocuments(body, offset, end).value;
      assert docs[1..] == TakeDocuments(body, next, end).value;
      assert body[offset..end] == body[offset..next] + body[next..end];
    }
  }

  lemma TakeSequenceExact(body: bytes, offset: nat, end: nat)
    requires offset <= end <= |body| && TakeSequence(body, offset, end).Ok?
    ensures var (s, next) := TakeSequence(body, offset, end).value;
            SequenceBytes(s) == body[offset..next] && ValidDocuments(s.documents) && NulFree(s.identifier)
  {
    hide U32, LE32, TakeDocuments, Concat, ValidUtf8, ValidDocuments;
    var (s, next) := TakeSequence(body, offset, end).value;
    var start := offset + 4;
    var section := body[start..next];
    var n := FindNul(section);
    TakeDocumentsExact(body, start + n + 1, next);
    LE32OfU32(body[offset..]);
    assert body[offset..][..4] == body[offset..start];
    assert section == s.identifier + [0] + body[start + n + 1..next];
    assert body[offset..next] == body[offset..start] + section;
    assert U32(body[offset..]) == next - offset;
  }

  lemma {:induction false} SequencesAppend(ss: seq<DocumentSequence>, s: DocumentSequence)
    ensures SequencesBytes(ss + [s]) == SequencesBytes(ss) + ([1] + SequenceBytes(s))
  {
    hide SequenceBytes;
    if ss == [] {
      assert ss + [s] == [s];
      assert [s][1..] == [];
    } else {
      SequencesAppend(ss[1..], s);
      assert (ss + [s])[1..] == ss[1..] + [s];
    }
  }

  /** The bytes a cursor has collected. */
  function Collected(c: Cursor): bytes {
    (if c.body.Some? then [0] + c.body.value else []) + SequencesBytes(c.sequences)
  }

  predicate GoodSequences(ss: seq<DocumentSequence>) {
    forall i :: 0 <= i < |ss| ==> ValidDocuments(ss[i].documents) && NulFree(ss[i].identifier)
  }

  predicate GoodCursor(c: Cursor) {
    (c.body.Some? ==> ValidDocument(c.body.value)) && GoodSequences(c.sequences)
  }

  lemma CutThree(body: bytes, a: nat, b: nat)
    requires 4 <= a < b <= |body|
    ensures body[4..b] == body[4..a] + ([body[a]] + body[a + 1..b])
  {
    var l, r := body[4..b], body[4..a] + ([body[a]] + body[a + 1..b]);
    assert |l| == |r|;
    assert forall k :: 0 <= k < |l| ==> l[k] == r[k];
  }

  lemma StepExact(body: bytes, end: nat, c: Cursor)
    requires 4 <= c.offset < end <= |body| && SectionStep(body, end, c).Ok?
    requires body[4..c.offset] == Collected(c) && GoodCursor(c)
    ensures var c' := SectionStep(body, end, c).value;
            body[4..c'.offset] == Collected(c') && GoodCursor(c')
  {
    hide TakeDocument, TakeSequence, SequenceBytes, SequencesBytes, ValidDocument, ValidDocuments, NulFree;
    var c' := SectionStep(body, end, c).value;
    var kind := body[c.offset];
    var at := c.offset + 1;
    CutThree(body, c.offset, c'.offset);
    if kind == 0 {
      NoSequences();
      assert Collected(c) == [];
      assert Collected(c') == [0] + c'.body.value;
    } else {
      TakeSequenceExact(body, at, end);
      var s := TakeSequence(body, at, end).value.0;
      SequencesAppend(c.sequences, s);
    }
  }

  lemma NoSequences()
    ensures SequencesBytes([]) == []
  {
  }

  lemma {:induction false} RunExact(body: bytes, end: nat, c: Cursor)
    requires 4 <= c.offset < end <= |body| && RunSections(body, end, c).Ok?
    requires body[4..c.offset] == Collected(c) && GoodCursor(c)
    ensures var c' := RunSections(body, end, c).value;
            body[4..end] == Collected(c') && GoodCursor(c')
    decreases |body| - c.offset
  {
    hide SectionStep, Collected, GoodCursor;
    StepExact(body, end, c);
    StepStaysInside(body, end, c);
    var c' := SectionStep(body, end, c).value;
    if c'.offset != end {
      RunExact(body, end, c');
    }
  }

  /** The sections of an accepted body fill it exactly, and re-encoding gives
      the same bytes except for cleared flag bits: the same bytes exactly when
      no unknown optional flag bit was set. */
  lemma ReencodeAccepted(b: bytes)
    requires ParseOpMsg(b).Ok?
    ensures var m := ParseOpMsg(b).value;
            && OpMsgBytes(m) == LE32(FlagBits(m.flags)) + b[4..]
            && (OpMsgBytes(m) == b <==> U32(b) / 0x2_0000 == 0)
            && (m.checksum.Some? <==> m.flags.checksumPresent)
            && |SectionsBytes(m.sections)| == |b| - 4 - |ChecksumBytes(m)|
            && ValidDocument(m.sections.body) && GoodSequences(m.sections.sequences)
  {
    hide LE32, U32, RunSections, SequencesBytes, NewSections, FlagBits, ParseFlags, ValidDocument,
      GoodSequences;
    var m := ParseOpMsg(b).value;
    var end := |b| - (if m.flags.checksumPresent then 4 else 0);
    var start := Cursor(4, None, []);
    NoSequences();
    assert b[4..4] == [];
    EmptyIsGood();
    RunExact(b, end, start);
    NewSectionsKeeps(RunSections(b, end, start).value.body.value, RunSections(b, end, start).value.sequences);
    assert b[4..end] == SectionsBytes(m.sections);
    LE32OfU32(b[end - 4..]);
    if m.flags.checksumPresent {
      LE32OfU32(b[end..]);
      assert b[end..][..4] == b[end..];
    }
    assert b[4..] == b[4..end] + b[end..];
    FlagWordIff(b);
    assert b == b[..4] + b[4..];
  }

  lemma EmptyIsGood()
    ensures GoodSequences([])
  {
  }

  lemma NewSectionsKeeps(body: bytes, ss: seq<DocumentSequence>)
    requires NewSections(body, ss).Ok?
    ensures NewSections(body, ss).value == Sections(body, ss)
  {
    hide FieldNames, CheckIdentifiers;
  }

  lemma FlagWordIff(b: bytes)
    requires |b| >= 4 && ParseFlags(U32(b)).Ok?
    ensures LE32(FlagBits(ParseFlags(U32(b)).value)) == b[..4] <==> U32(b) / 0x2_0000 == 0
  {
    hide LE32, U32, ParseFlags, FlagBits;
    var f := FlagBits(ParseFlags(U32(b)).value);
    FlagsRoundTripIff(U32(b));
    LE32OfU32(b);
    LE32RoundTrip(f, []);
    LE32RoundTrip(U32(b), []);
  }

  // ------------------------------------------------------------ parsing what was encoded

  lemma TakeDocumentOf(body: bytes, offset: nat, end: nat, doc: bytes, rest: bytes)
    requires offset <= end <= |body| && body[offset..end] == doc + rest
    requires ValidDocument(doc) && |doc| <= I32_MAX
    ensures TakeDocument(body, offset, end) == Ok((doc, offset + |doc|))
  {
    hide U32;
    assert body[offset..] == doc + (rest + body[end..]);
    ValidPrefix(doc, rest + body[end..]);
    assert body[offset..offset + |doc|] == body[offset..end][..|doc|] == doc;
  }

  lemma {:induction false} TakeDocumentsOf(body: bytes, offset: nat, end: nat, docs: seq<bytes>)
    requires offset <= end <= |body| && body[offset..end] == Concat(docs)
    requires ValidDocuments(docs) && |Concat(docs)| <= I32_MAX
    ensures TakeDocuments(body, offset, end) == Ok(docs)
    decreases |docs|
  {
    hide TakeDocument, ValidDocument;
    if docs != [] {
      assert ValidDocument(docs[0]) && |docs[0]| >= MIN_DOC_LEN by {
        ValidIsNotEmpty(docs[0]);
      }
      TakeDocumentOf(body, offset, end, docs[0], Concat(docs[1..]));
      var next := offset + |docs[0]|;
      assert body[next..end] == body[offset..end][|docs[0]|..] == Concat(docs[1..]);
      TakeDocumentsOf(body, next, end, docs[1..]);
      assert [docs[0]] + docs[1..] == docs;
    }
  }

  lemma ValidIsNotEmpty(doc: bytes)
    requires ValidDocument(doc)
    ensures |doc| >= MIN_DOC_LEN
  {
  }

  /** The parser insists on five bytes behind the section size. */
  predicate Large(s: DocumentSequence) {
    |s.identifier| + 1 + |Concat(s.documents)| >= 5
  }

  /** Only a sequence without documents can be too small, and then only for an
      identifier of at most three bytes. */
  lemma LargeIff(s: DocumentSequence)
    requires ValidDocuments(s.documents)
    ensures Large(s) <==> (s.documents == [] ==> |s.identifier| >= 4)
  {
    hide ValidDocument;
    if s.documents != [] {
      ValidIsNotEmpty(s.documents[0]);
    }
  }

  lemma SequenceBytesLength(s: DocumentSequence)
    ensures |SequenceBytes(s)| == 5 + |s.identifier| + |Concat(s.documents)|
  {
  }

  lemma SequenceLayout(body: bytes, offset: nat, end: nat, s: DocumentSequence, rest: bytes)
    requires offset <= end <= |body| && body[offset..end] == SequenceBytes(s) + rest
    requires |SequenceBytes(s)| <= I32_MAX
    ensures |SequenceBytes(s)| == 5 + |s.identifier| + |Concat(s.documents)| <= end - offset
    ensures U32(body[offset..]) == |SequenceBytes(s)|
    ensures body[offset + 4..offset + |SequenceBytes(s)|] == s.identifier + [0] + Concat(s.documents)
    ensures body[offset + 5 + |s.identifier|..offset + |SequenceBytes(s)|] == Concat(s.documents)
  {
    hide U32, LE32, Concat;
    SequenceBytesLength(s);
    var docs := Concat(s.documents);
    var inner := s.identifier + [0] + docs;
    var total := |SequenceBytes(s)|;
    assert SequenceBytes(s) == LE32(total) + inner;
    var more := inner + rest + body[end..];
    assert body[offset..] == LE32(total) + more by {
      assert body[offset..] == body[offset..end] + body[end..];
    }
    LE32RoundTrip(total, more);
    SliceOfSlice(body, offset, end, 4, total);
    SliceOfSlice(body, offset, end, 5 + |s.identifier|, total);
  }

  lemma TakeSequenceOf(body: bytes, offset: nat, end: nat, s: DocumentSequence, rest: bytes)
    requires offset <= end <= |body| && body[offset..end] == SequenceBytes(s) + rest
    requires ValidDocuments(s.documents) && NulFree(s.identifier) && |SequenceBytes(s)| <= I32_MAX
    ensures TakeSequence(body, offset, end)
         == if Large(s) then Ok((s, offset + |SequenceBytes(s)|)) else Err(InvalidOpMsg(SectionTooSmall))
  {
    hide U32, LE32, TakeDocuments, Concat, ValidUtf8, ValidDocuments, SequenceBytes, FindNul;
    SequenceLayout(body, offset, end, s, rest);
    var docs := Concat(s.documents);
    var inner := s.identifier + [0] + docs;
    FindNulAfter(s.identifier, docs);
    TakeDocumentsOf(body, offset + 5 + |s.identifier|, offset + |SequenceBytes(s)|, s.documents);
    assert inner[..|s.identifier|] == s.identifier;
  }

  predicate AllLarge(ss: seq<DocumentSequence>) {
    ss == [] || (Large(ss[0]) && AllLarge(ss[1..]))
  }

  lemma SequenceStepOf(body: bytes, end: nat, c: Cursor, s: DocumentSequence, rest: bytes)
    requires c.offset <= end <= |body| && body[c.offset..end] == [1] + SequenceBytes(s) + rest
    requires ValidDocuments(s.documents) && NulFree(s.identifier) && |SequenceBytes(s)| <= I32_MAX
    ensures var next := c.offset + 1 + |SequenceBytes(s)|;
            && next <= end && body[next..end] == rest
            && SectionStep(body, end, c)
            == if Large(s) then Ok(Cursor(next, c.body, c.sequences + [s])) else Err(InvalidOpMsg(SectionTooSmall))
  {
    hide TakeSequence, TakeDocument, SequenceBytes, Large, ValidDocuments, NulFree;
    assert body[c.offset] == body[c.offset..end][0] == 1;
    DropOfSlice(body, c.offset, end, 1);
    assert body[c.offset + 1..end] == SequenceBytes(s) + rest;
    TakeSequenceOf(body, c.offset + 1, end, s, rest);
    DropOfSlice(body, c.offset, end, 1 + |SequenceBytes(s)|);
  }

  lemma {:induction false} RunSequencesOf(body: bytes, end: nat, c: Cursor, ss: seq<DocumentSequence>)
    requires ss != [] && c.offset < end <= |body| && body[c.offset..end] == SequencesBytes(ss)
    requires GoodSequences(ss) && |SequencesBytes(ss)| <= I32_MAX
    ensures RunSections(body, end, c)
         == if AllLarge(ss) then Ok(Cursor(end, c.body, c.sequences + ss)) else Err(InvalidOpMsg(SectionTooSmall))
    decreases |ss|
  {
    hide SectionStep, SequenceBytes, Large, ValidDocuments, NulFree;
    SequenceStepOf(body, end, c, ss[0], SequencesBytes(ss[1..]));
    if Large(ss[0]) {
      var c' := SectionStep(body, end, c).value;
      assert c.sequences + ss == c'.sequences + ss[1..];
      if ss[1..] != [] {
        TailNotEmpty(ss[1..]);
        RunSequencesOf(body, end, c', ss[1..]);
      } else {
        NoSequences();
        assert ss == [ss[0]];
      }
    }
  }

  lemma TailNotEmpty(ss: seq<DocumentSequence>)
    requires ss != []
    ensures |SequencesBytes(ss)| > 0
  {
  }

  lemma RunSectionsOf(body: bytes, end: nat, sections: Sections)
    requires 4 <= end <= |body| && body[4..end] == SectionsBytes(sections)
    requires ValidDocument(sections.body) && GoodSequences(sections.sequences) && |SectionsBytes(sections)| <= I32_MAX
    ensures RunSections(body, end, Cursor(4, None, []))
         == if AllLarge(sections.sequences) then Ok(Cursor(end, Some(sections.body), sections.sequences))
            else Err(InvalidOpMsg(SectionTooSmall))
  {
    hide TakeDocument, TakeSequence, SequencesBytes, AllLarge, ValidDocument, GoodSequences;
    var doc, ss := sections.body, sections.sequences;
    var tail := SequencesBytes(ss);
    var c := Cursor(4, None, []);
    assert body[4] == body[4..end][0] == 0;
    DropOfSlice(body, 4, end, 1);
    assert body[5..end] == doc + tail;
    TakeDocumentOf(body, 5, end, doc, tail);
    var next := 5 + |doc|;
    DropOfSlice(body, 5, end, |doc|);
    assert body[next..end] == tail;
    assert SectionStep(body, end, c) == Ok(Cursor(next, Some(doc), []));
    if ss == [] {
      NoSequences();
      assert AllLarge(ss) by {
        NoneLarge();
      }
    } else {
      TailNotEmpty(ss);
      RunSequencesOf(body, end, Cursor(next, Some(doc), []), ss);
      assert [] + ss == ss;
    }
  }

  lemma NoneLarge()
    ensures AllLarge([])
  {
  }

  /** What `OpMsg::new` and the parser build: complete documents, accepted
      identifiers, a checksum exactly when flagged, and a size a frame can hold. */
  predicate WellFormedMsg(m: OpMsg) {
    && ValidDocument(m.sections.body)
    && (forall i :: 0 <= i < |m.sections.sequences| ==> ValidDocuments(m.sections.sequences[i].documents))
    && NewSections(m.sections.body, m.sections.sequences).Ok?
    && (m.checksum.Some? <==> m.flags.checksumPresent)
    && |OpMsgBytes(m)| <= I32_MAX
  }

  lemma {:induction false} CheckedIdentifiers(ss: seq<DocumentSequence>, names: set<Str>)
    requires CheckIdentifiers(ss, names).Ok?
    ensures forall i :: 0 <= i < |ss| ==>
              NulFree(ss[i].identifier) && ss[i].identifier != [] && ss[i].identifier !in names
  {
    if ss != [] {
      CheckedIdentifiers(ss[1..], names);
    }
  }

  lemma WellFormedIsGood(m: OpMsg)
    requires WellFormedMsg(m)
    ensures GoodSequences(m.sections.sequences)
  {
    hide FieldNames, CheckIdentifiers, OpMsgBytes, ValidDocument, ValidDocuments;
    var ss := m.sections.sequences;
    if ss != [] {
      CheckedIdentifiers(ss, FieldNames(m.sections.body, 0).value);
    }
  }

  lemma OpMsgLayout(m: OpMsg, b: bytes)
    requires b == OpMsgBytes(m)
    ensures var end := |b| - |ChecksumBytes(m)|;
            && 5 + |m.sections.body| <= end
            && U32(b) == FlagBits(m.flags)
            && b[4..end] == SectionsBytes(m.sections)
            && b[end..] == ChecksumBytes(m)
            && (m.checksum.Some? ==> |b| == end + 4 && U32(b[end..]) == m.checksum.value)
            && (m.checksum.None? ==> |b| == end)
  {
    hide U32, LE32, FlagBits, SequencesBytes;
    assert b == LE32(FlagBits(m.flags)) + (SectionsBytes(m.sections) + ChecksumBytes(m));
    LE32RoundTrip(FlagBits(m.flags), SectionsBytes(m.sections) + ChecksumBytes(m));
    if m.checksum.Some? {
      LE32RoundTrip(m.checksum.value, []);
      assert LE32(m.checksum.value) + [] == LE32(m.checksum.value);
    }
  }

  lemma {:induction false} AllLargeIff(ss: seq<DocumentSequence>)
    requires GoodSequences(ss)
    ensures AllLarge(ss) <==> forall i :: 0 <= i < |ss| ==> (ss[i].documents == [] ==> |ss[i].identifier| >= 4)
  {
    hide Large, ValidDocuments, NulFree;
    if ss != [] {
      LargeIff(ss[0]);
      AllLargeIff(ss[1..]);
      assert ss == [ss[0]] + ss[1..];
    }
  }

  /** A well-formed message is read back from its encoding exactly when every
      sequence without documents has an identifier of at least four bytes;
      otherwise the parser rejects its own encoding. */
  lemma ParseOfEncode(m: OpMsg)
    requires WellFormedMsg(m)
    ensures ParseOpMsg(OpMsgBytes(m)) ==
            if AllLarge(m.sections.sequences) then Ok(m) else Err(InvalidOpMsg(SectionTooSmall))
    ensures var ss := m.sections.sequences;
            ParseOpMsg(OpMsgBytes(m)) == Ok(m) <==>
            forall i :: 0 <= i < |ss| && ss[i].documents == [] ==> |ss[i].identifier| >= 4
  {
    hide U32, LE32, FlagBits, ParseFlags, RunSections, NewSections, SectionsBytes, AllLarge, ValidDocument,
      ValidDocuments;
    var b := OpMsgBytes(m);
    OpMsgLayout(m, b);
    ParseFlagsOf(m.flags);
    WellFormedIsGood(m);
    AllLargeIff(m.sections.sequences);
    ValidIsNotEmpty(m.sections.body);
    RunSectionsOf(b, |b| - |ChecksumBytes(m)|, m.sections);
    NewSectionsKeeps(m.sections.body, m.sections.sequences);
  }

  /** `OpMsg::new` over complete documents yields well-formed messages. */
  lemma NewIsWellFormed(flags: MsgFlags, body: bytes, ss: seq<DocumentSequence>)
    requires NewOpMsg(flags, body, ss).Ok? && ValidDocument(body)
    requires forall i :: 0 <= i < |ss| ==> ValidDocuments(ss[i].documents)
    requires |OpMsgBytes(NewOpMsg(flags, body, ss).value)| <= I32_MAX
    ensures WellFormedMsg(NewOpMsg(flags, body, ss).value)
  {
    hide NewSections, OpMsgBytes, ValidDocument, ValidDocuments;
    NewSectionsKeeps(body, ss);
  }

  const EMPTY_DOCUMENT: bytes := [5, 0, 0, 0, 0]

  /** A family of messages the constructor accepts and the parser rejects: the
      empty document with one sequence of no documents, named by one to three
      bytes. */
  lemma ConstructedYetRejected(flags: MsgFlags, id: Str)
    requires NulFree(id) && 1 <= |id| <= 3
    ensures var made := NewOpMsg(flags, EMPTY_DOCUMENT, [DocumentSequence(id, [])]);
            made.Ok? && ParseOpMsg(OpMsgBytes(made.value)) == Err(InvalidOpMsg(SectionTooSmall))
  {
    hide ParseOpMsg, LE32, FlagBits, ValidUtf8;
    var ss := [DocumentSequence(id, [])];
    EmptyDocumentHasNoNames();
    assert ss[1..] == [];
    assert CheckIdentifiers(ss, {}) == Ok(());
    var m := NewOpMsg(flags, EMPTY_DOCUMENT, ss).value;
    SmallEncoding(m, id);
    NewIsWellFormed(flags, EMPTY_DOCUMENT, ss);
    ParseOfEncode(m);
  }

  lemma EmptyDocumentHasNoNames()
    ensures ValidDocument(EMPTY_DOCUMENT) && FieldNames(EMPTY_DOCUMENT, 0) == Ok({})
  {
    hide ParseValue;
    assert Body(EMPTY_DOCUMENT)[0..] == [0];
    assert ScanNext(EMPTY_DOCUMENT, 0) == Ok(End);
  }

  lemma SmallEncoding(m: OpMsg, id: Str)
    requires m.sections == Sections(EMPTY_DOCUMENT, [DocumentSequence(id, [])]) && m.checksum == None && |id| <= 3
    ensures |OpMsgBytes(m)| <= I32_MAX
  {
    hide FlagBits, LE32;
    OpMsgLenIsLength(m);
    assert SequencesLen([DocumentSequence(id, [])][1..]) == 0;
  }

  // ------------------------------------------------------------ truncation

  /** `k` bytes are some number of complete leading sequences. */
  predicate AtBoundary(ss: seq<DocumentSequence>, k: int) {
    k == 0 || (ss != [] && AtBoundary(ss[1..], k - 1 - |SequenceBytes(ss[0])|))
  }

  lemma {:induction false} BoundaryIff(ss: seq<DocumentSequence>, k: int)
    ensures AtBoundary(ss, k) <==> exists j :: 0 <= j <= |ss| && k == |SequencesBytes(ss[..j])|
  {
    if AtBoundary(ss, k) {
      var j := BoundaryIndex(ss, k);
    }
    forall j | 0 <= j <= |ss| && k == |SequencesBytes(ss[..j])|
      ensures AtBoundary(ss, k)
    {
      IndexIsBoundary(ss, j);
    }
  }

  lemma {:induction false} BoundaryIndex(ss: seq<DocumentSequence>, k: int) returns (j: nat)
    requires AtBoundary(ss, k)
    ensures j <= |ss| && k == |SequencesBytes(ss[..j])|
  {
    if k == 0 {
      j := 0;
    } else {
      var i := BoundaryIndex(ss[1..], k - 1 - |SequenceBytes(ss[0])|);
      j := i + 1;
      assert ss[..j][1..] == ss[1..][..i];
    }
  }

  lemma {:induction false} IndexIsBoundary(ss: seq<DocumentSequence>, j: nat)
    requires j <= |ss|
    ensures AtBoundary(ss, |SequencesBytes(ss[..j])|)
  {
    if j > 0 {
      IndexIsBoundary(ss[1..], j - 1);
      assert ss[..j][1..] == ss[1..][..j - 1];
    }
  }

  /** A section cut short is rejected. */
  lemma TakeSequenceCut(body: bytes, offset: nat, s: DocumentSequence)
    requires offset <= |body| && |body| - offset < |SequenceBytes(s)| <= I32_MAX
    requires body[offset..] == SequenceBytes(s)[..|body| - offset]
    ensures TakeSequence(body, offset, |body|).Err?
  {
    hide U32, LE32, TakeDocuments, Concat, ValidUtf8, FindNul;
    SequenceBytesLength(s);
    var total := |SequenceBytes(s)|;
    if |body| - offset >= 4 {
      var inner := s.identifier + [0] + Concat(s.documents);
      assert SequenceBytes(s) == LE32(total) + inner;
      var more := inner[..|body| - offset - 4];
      assert body[offset..] == LE32(total) + more;
      LE32RoundTrip(total, more);
    }
  }

  lemma SequenceStepCut(body: bytes, c: Cursor, s: DocumentSequence, k: nat)
    requires 0 < k < 1 + |SequenceBytes(s)| && |SequenceBytes(s)| <= I32_MAX
    requires c.offset + k == |body| && body[c.offset..] == ([1] + SequenceBytes(s))[..k]
    ensures SectionStep(body, |body|, c).Err?
  {
    hide TakeSequence, TakeDocument, SequenceBytes;
    assert body[c.offset] == body[c.offset..][0] == 1;
    assert body[c.offset + 1..] == body[c.offset..][1..] == SequenceBytes(s)[..k - 1];
    TakeSequenceCut(body, c.offset + 1, s);
  }

  lemma {:induction false} RunCut(body: bytes, c: Cursor, ss: seq<DocumentSequence>, k: nat)
    requires 0 < k <= |SequencesBytes(ss)| <= I32_MAX
    requires c.offset + k == |body| && body[c.offset..] == SequencesBytes(ss)[..k]
    requires GoodSequences(ss) && AllLarge(ss)
    ensures var r := RunSections(body, |body|, c);
            if AtBoundary(ss, k) then
              r.Ok? && r.value.body == c.body && c.sequences <= r.value.sequences <= c.sequences + ss
            else r.Err?
    decreases |ss|
  {
    hide SectionStep, SequenceBytes, Large, ValidDocuments, NulFree;
    var first, tail := [1] + SequenceBytes(ss[0]), SequencesBytes(ss[1..]);
    assert SequencesBytes(ss) == first + tail;
    var n := |first|;
    if k < n {
      assert (first + tail)[..k] == first[..k];
      SequenceStepCut(body, c, ss[0], k);
      NotBoundary(ss[1..], k - n);
    } else {
      assert (first + tail)[..k] == first + tail[..k - n];
      assert body[c.offset..|body|] == body[c.offset..];
      SequenceStepOf(body, |body|, c, ss[0], tail[..k - n]);
      var c' := SectionStep(body, |body|, c).value;
      assert c.sequences + ss == c'.sequences + ss[1..];
      if k > n {
        assert body[c'.offset..] == body[c'.offset..|body|];
        RunCut(body, c', ss[1..], k - n);
      } else {
        assert AtBoundary(ss[1..], 0);
      }
    }
  }

  lemma {:induction false} NotBoundary(ss: seq<DocumentSequence>, k: int)
    requires k < 0
    ensures !AtBoundary(ss, k)
  {
    if ss != [] {
      NotBoundary(ss[1..], k - 1 - |SequenceBytes(ss[0])|);
    }
  }

  lemma TakeDocumentCut(body: bytes, offset: nat, doc: bytes)
    requires offset <= |body| && |body| - offset < |doc| && body[offset..] == doc[..|body| - offset]
    requires ValidDocument(doc) && |doc| <= I32_MAX
    ensures TakeDocument(body, offset, |body|).Err?
  {
    hide U32;
    if |body| - offset >= 4 {
      ValidPrefix(body[offset..], doc[|body| - offset..]);
      assert doc == body[offset..] + doc[|body| - offset..];
    }
  }

  /** The first step over a body cut to `k` bytes. */
  lemma BodyStepCut(p: bytes, sections: Sections)
    requires 5 <= |p| < 4 + |SectionsBytes(sections)|
    requires p[4..] == SectionsBytes(sections)[..|p| - 4]
    requires ValidDocument(sections.body) && |sections.body| <= I32_MAX
    ensures var next := 5 + |sections.body|;
            var r := SectionStep(p, |p|, Cursor(4, None, []));
            if |p| < next then r.Err?
            else
              && r == Ok(Cursor(next, Some(sections.body), []))
              && p[next..] == SequencesBytes(sections.sequences)[..|p| - next]
  {
    hide TakeDocument, TakeSequence, SequencesBytes, ValidDocument;
    var doc, tail := sections.body, SequencesBytes(sections.sequences);
    var next := 5 + |doc|;
    assert p[4] == p[4..][0] == 0;
    assert SectionsBytes(sections) == [0] + (doc + tail);
    assert p[5..] == p[4..][1..] == (doc + tail)[..|p| - 5];
    if |p| < next {
      assert p[5..] == doc[..|p| - 5];
      TakeDocumentCut(p, 5, doc);
    } else {
      assert p[5..|p|] == p[5..] == doc + tail[..|p| - next];
      TakeDocumentOf(p, 5, |p|, doc, tail[..|p| - next]);
      assert p[next..] == p[5..][|doc|..];
    }
  }

  lemma {:induction false} CheckPrefix(ss: seq<DocumentSequence>, more: seq<DocumentSequence>, names: set<Str>)
    requires ss <= more && CheckIdentifiers(more, names).Ok?
    ensures CheckIdentifiers(ss, names).Ok?
  {
    if ss != [] {
      CheckPrefix(ss[1..], more[1..], names);
    }
  }

  lemma NewSectionsPrefix(body: bytes, ss: seq<DocumentSequence>, more: seq<DocumentSequence>)
    requires ss <= more && NewSections(body, more).Ok?
    ensures NewSections(body, ss).Ok?
  {
    hide FieldNames, CheckIdentifiers;
    if ss != [] {
      CheckPrefix(ss, more, FieldNames(body, 0).value);
    }
  }

  /** The sections of a cut body parse exactly when the cut is at a section
      boundary behind the body document. */
  lemma RunSectionsCut(p: bytes, sections: Sections)
    requires 5 <= |p| < 4 + |SectionsBytes(sections)| <= I32_MAX
    requires p[4..] == SectionsBytes(sections)[..|p| - 4]
    requires ValidDocument(sections.body) && GoodSequences(sections.sequences) && AllLarge(sections.sequences)
    ensures var r := RunSections(p, |p|, Cursor(4, None, []));
            if |p| >= 5 + |sections.body| && AtBoundary(sections.sequences, |p| - 5 - |sections.body|)
            then r.Ok? && r.value.body == Some(sections.body) && r.value.sequences <= sections.sequences
            else r.Err?
  {
    hide SectionStep, SequencesBytes, ValidDocument, GoodSequences, AllLarge, AtBoundary;
    var next := 5 + |sections.body|;
    BodyStepCut(p, sections);
    if |p| == next {
      AtStart(sections.sequences);
    } else if |p| > next {
      var c := Cursor(next, Some(sections.body), []);
      RunCut(p, c, sections.sequences, |p| - next);
      assert [] + sections.sequences == sections.sequences;
    }
  }

  lemma AtStart(ss: seq<DocumentSequence>)
    ensures AtBoundary(ss, 0)
  {
  }

  /** `k` bytes hold the flags, the body document and some but not all of the
      sequences. */
  ghost predicate CutAtSection(s: Sections, k: nat) {
    exists j :: 0 <= j < |s.sequences| && k == 5 + |s.body| + |SequencesBytes(s.sequences[..j])|
  }

  /** The proper prefixes of an encoded message that parse are exactly those
      that end at a section boundary at or behind the body document. */
  lemma PrefixesThatParse(m: OpMsg, k: nat)
    requires WellFormedMsg(m) && m.checksum.None? && AllLarge(m.sections.sequences)
    requires k < |OpMsgBytes(m)|
    ensures ParseOpMsg(OpMsgBytes(m)[..k]).Ok? <==> CutAtSection(m.sections, k)
  {
    hide U32, LE32, FlagBits, ParseFlags, RunSections, NewSections, SectionsBytes, AllLarge, ValidDocument,
      ValidDocuments, GoodSequences, AtBoundary, SequencesBytes;
    var b := OpMsgBytes(m);
    var p := b[..k];
    var ss := m.sections.sequences;
    var boundary := k - 5 - |m.sections.body|;
    OpMsgLayout(m, b);
    WellFormedIsGood(m);
    ValidIsNotEmpty(m.sections.body);
    BoundaryIff(ss, boundary);
    SectionsLength(m.sections);
    assert ss[..|ss|] == ss;
    if k >= 6 {
      ParseFlagsOf(m.flags);
      ValidPrefix(p, b[k..]);
      assert p + b[k..] == b;
      assert p[4..] == SectionsBytes(m.sections)[..k - 4];
      RunSectionsCut(p, m.sections);
      var r := RunSections(p, k, Cursor(4, None, []));
      if r.Ok? {
        NewSectionsPrefix(m.sections.body, r.value.sequences, ss);
      }
    }
  }

  lemma SectionsLength(s: Sections)
    ensures |SectionsBytes(s)| == 1 + |s.body| + |SequencesBytes(s.sequences)|
  {
    hide SequencesBytes;
  }
}
