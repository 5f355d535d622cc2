/** Exactly which messages the OP_MSG constructor and parser accept, in terms of
    the bytes (mongowire/src/messages/op_msg.rs). */
module OpMsgAccepts {
  import opened Bytes
  import opened Text
  import opened BsonModel
  import opened RawValue
  import opened Documents
  import opened Scan
  import opened OpMsgCodec
  import opened OpMsgTheorems

  // ------------------------------------------------------------ flags

  /** Bit 0 is the checksum, bit 1 more to come, bit 16 exhaust allowed; no other
      bit below 16 may be set. */
  predicate FlagWord(raw: u32, f: MsgFlags) {
    && (f.checksumPresent <==> raw % 2 == 1)
    && (f.moreToCome <==> raw / 2 % 2 == 1)
    && (f.exhaustAllowed <==> raw / 0x1_0000 % 2 == 1)
    && raw / 4 % 0x4000 == 0
  }

  lemma FlagsIff(raw: u32, f: MsgFlags)
    ensures ParseFlags(raw) == Ok(f) <==> FlagWord(raw, f)
  {
    FlagFields(raw);
  }

  lemma FlagFields(raw: u32)
    ensures raw % 0x1_0000 / 4 == raw / 4 % 0x4000
  {
    var q: int, r: int := raw / 0x1_0000, raw % 0x1_0000;
    assert raw / 4 == q * 0x4000 + r / 4;
  }

  /** Written flags have exactly their own bits. */
  lemma FlagBitsAre(f: MsgFlags)
    ensures FlagWord(FlagBits(f), f) && FlagBits(f) < 0x2_0000
  {
  }

  // ------------------------------------------------------------ construction

  /** `id` may name a sequence beside a body with these items. */
  predicate FreeIdentifier(id: bytes, items: seq<RawField>) {
    id != [] && NulFree(id) && forall j :: 0 <= j < |items| ==> items[j].0 != id
  }

  predicate FreeIdentifiers(ss: seq<DocumentSequence>, items: seq<RawField>) {
    forall i :: 0 <= i < |ss| ==> FreeIdentifier(ss[i].identifier, items)
  }

  function Names(items: seq<RawField>): set<Str> {
    set j | 0 <= j < |items| :: items[j].0
  }

  lemma {:induction false} NamesOfItems(doc: bytes, offset: nat, items: seq<RawField>)
    requires offset <= |Body(doc)| && |doc| <= U32_MAX && Clean(items)
    requires Body(doc)[offset..] == RawFieldsBytes(items) + [0]
    ensures FieldNames(doc, offset) == Ok(Names(items))
    decreases |items|
  {
    hide ScanNext, ItemBytes, ValidRaw, NulFree, Body;
    if items == [] {
      ScanOfEnd(doc, offset);
      assert Names(items) == {};
    } else {
      var size := ItemStep(doc, offset, items, [0]);
      NamesOfItems(doc, offset + size, items[1..]);
      NamesCons(items);
    }
  }

  lemma NamesCons(items: seq<RawField>)
    requires items != []
    ensures Names(items) == {items[0].0} + Names(items[1..])
  {
    forall n | n in Names(items)
      ensures n in {items[0].0} + Names(items[1..])
    {
      var j :| 0 <= j < |items| && items[j].0 == n;
      if j > 0 {
        assert items[1..][j - 1].0 == n;
      }
    }
  }

  lemma {:induction false} NamedBodyEnds(doc: bytes, offset: nat)
    requires FieldNames(doc, offset).Ok?
    ensures Ends(doc, offset)
    decreases |Body(doc)| - offset
  {
    hide ScanNext, Body;
    if ScanNext(doc, offset).value.Item? {
      NamedBodyEnds(doc, ScanNext(doc, offset).value.next);
    }
  }

  lemma {:induction false} IdentifiersIff(ss: seq<DocumentSequence>, items: seq<RawField>)
    ensures CheckIdentifiers(ss, Names(items)).Ok? <==> FreeIdentifiers(ss, items)
  {
    if ss != [] {
      IdentifiersIff(ss[1..], items);
      FreeIff(ss[0].identifier, items);
      assert ss == [ss[0]] + ss[1..];
      if FreeIdentifiers(ss, items) {
        assert FreeIdentifier(ss[0].identifier, items);
        assert forall i :: 0 <= i < |ss[1..]| ==> ss[1..][i] == ss[i + 1];
      }
    }
  }

  /** The first identifier that is not free decides, with its own reason. */
  lemma {:induction false} FirstBadIdentifier(good: seq<DocumentSequence>, bad: DocumentSequence,
                                              rest: seq<DocumentSequence>, items: seq<RawField>)
    requires FreeIdentifiers(good, items) && !FreeIdentifier(bad.identifier, items)
    ensures CheckIdentifiers(good + ([bad] + rest), Names(items)) ==
            Err(InvalidOpMsg(if bad.identifier == [] then EmptyIdentifier
                             else if 0 in bad.identifier then NulInIdentifier
                             else DuplicateIdentifier))
    decreases |good|
  {
    hide Names;
    var ss := good + ([bad] + rest);
    if good == [] {
      assert ss == [bad] + rest;
      FreeIff(bad.identifier, items);
    } else {
      assert ss[1..] == good[1..] + ([bad] + rest);
      FreeIff(good[0].identifier, items);
      FirstBadIdentifier(good[1..], bad, rest, items);
    }
  }

  lemma FreeIff(id: Str, items: seq<RawField>)
    ensures FreeIdentifier(id, items) <==> id != [] && 0 !in id && id !in Names(items)
  {
  }

  /** The body scans to its terminator and no sequence repeats the name of one of
      its top-level fields. */
  ghost predicate Compatible(body: bytes, ss: seq<DocumentSequence>) {
    exists items :: Clean(items) && Body(body) == RawFieldsBytes(items) + [0] && FreeIdentifiers(ss, items)
  }

  lemma NewSectionsIff(body: bytes, ss: seq<DocumentSequence>)
    requires ValidDocument(body)
    ensures NewSections(body, ss).Ok? <==> ss == [] || Compatible(body, ss)
  {
    hide FieldNames, CheckIdentifiers, Names, FreeIdentifiers, RawFieldsBytes, U32, Clean;
    assert Body(body)[0..] == Body(body);
    if ss != [] && NewSections(body, ss).Ok? {
      NamedBodyEnds(body, 0);
      EndsOrRunsOff(body, 0);
      var items := ItemsFrom(body, 0);
      NamesOfItems(body, 0, items);
      IdentifiersIff(ss, items);
    }
    if Compatible(body, ss) {
      var items :| Clean(items) && Body(body) == RawFieldsBytes(items) + [0] && FreeIdentifiers(ss, items);
      NamesOfItems(body, 0, items);
      IdentifiersIff(ss, items);
    }
  }

  /** The constructor accepts a message exactly when it has no sequences, or its
      body scans to the end and every identifier is non-empty, NUL-free and not
      the name of a top-level field; the checksum flag is dropped. */
  lemma NewOpMsgIff(flags: MsgFlags, body: bytes, ss: seq<DocumentSequence>)
    requires ValidDocument(body)
    ensures NewOpMsg(flags, body, ss).Ok? <==> ss == [] || Compatible(body, ss)
    ensures NewOpMsg(flags, body, ss).Ok? ==>
              NewOpMsg(flags, body, ss).value ==
              OpMsg(MsgFlags(false, flags.moreToCome, flags.exhaustAllowed), Sections(body, ss), None)
  {
    hide NewSections, Compatible;
    NewSectionsIff(body, ss);
    if NewSections(body, ss).Ok? {
      NewSectionsKeeps(body, ss);
    }
  }

  // ------------------------------------------------------------ parsing

  /** A message in bytes: flag word, body section, sequence sections with room
      for the size guard, and a checksum when flagged. */
  ghost predicate Spells(m: OpMsg, b: bytes) {
    var ss := m.sections.sequences;
    && |b| >= 4 && FlagWord(U32(b), m.flags)
    && b[4..] == SectionsBytes(m.sections) + ChecksumBytes(m)
    && (m.checksum.Some? <==> m.flags.checksumPresent)
    && ValidDocument(m.sections.body)
    && (forall i :: 0 <= i < |ss| ==> ValidDocuments(ss[i].documents))
    && (forall i :: 0 <= i < |ss| && ss[i].documents == [] ==> |ss[i].identifier| >= 4)
    && (ss == [] || Compatible(m.sections.body, ss))
  }

  lemma SpelledLayout(m: OpMsg, b: bytes)
    requires |b| >= 4 && b[4..] == SectionsBytes(m.sections) + ChecksumBytes(m)
    requires m.checksum.Some? <==> m.flags.checksumPresent
    ensures var end := |b| - (if m.flags.checksumPresent then 4 else 0);
            && 5 + |m.sections.body| <= end <= |b|
            && b[4..end] == SectionsBytes(m.sections)
            && (m.checksum.Some? ==> end + 4 == |b| && U32(b[end..]) == m.checksum.value)
            && |OpMsgBytes(m)| == |b|
  {
    hide U32, LE32, FlagBits, SequencesBytes;
    var end := |b| - (if m.flags.checksumPresent then 4 else 0);
    assert b[4..end] == b[4..][..end - 4];
    if m.checksum.Some? {
      assert b[end..] == b[4..][end - 4..] == LE32(m.checksum.value) + [];
      LE32RoundTrip(m.checksum.value, []);
    }
  }

  lemma SpelledIsParsed(m: OpMsg, b: bytes)
    requires Spells(m, b) && |b| <= I32_MAX
    ensures ParseOpMsg(b) == Ok(m)
  {
    hide U32, LE32, FlagBits, FlagWord, ParseFlags, RunSections, NewSections, SectionsBytes, AllLarge, ValidDocument,
      ValidDocuments, Compatible, OpMsgBytes;
    FlagsIff(U32(b), m.flags);
    SpelledLayout(m, b);
    NewSectionsIff(m.sections.body, m.sections.sequences);
    NewSectionsKeeps(m.sections.body, m.sections.sequences);
    WellFormedIsGood(m);
    AllLargeIff(m.sections.sequences);
    ValidIsNotEmpty(m.sections.body);
    RunSectionsOf(b, |b| - (if m.flags.checksumPresent then 4 else 0), m.sections);
  }

  lemma ParsedIsSpelled(b: bytes)
    requires ParseOpMsg(b).Ok? && |b| <= I32_MAX
    ensures Spells(ParseOpMsg(b).value, b)
  {
    hide U32, LE32, FlagBits, FlagWord, ParseFlags, RunSections, NewSections, SectionsBytes, AllLarge, ValidDocument,
      Compatible, ValidDocuments, NulFree;
    var m := ParseOpMsg(b).value;
    ReencodeAccepted(b);
    FlagsIff(U32(b), m.flags);
    ParsedSections(b);
    NewSectionsIff(m.sections.body, m.sections.sequences);
    assert OpMsgBytes(m) == LE32(FlagBits(m.flags)) + (SectionsBytes(m.sections) + ChecksumBytes(m));
    assert b[4..] == OpMsgBytes(m)[4..];
    SpelledLayout(m, b);
    RunSectionsOf(b, |b| - (if m.flags.checksumPresent then 4 else 0), m.sections);
    AllLargeIff(m.sections.sequences);
  }

  lemma ParsedSections(b: bytes)
    requires ParseOpMsg(b).Ok?
    ensures var m := ParseOpMsg(b).value;
            NewSections(m.sections.body, m.sections.sequences).Ok? && ParseFlags(U32(b)) == Ok(m.flags)
  {
    hide U32, ParseFlags, RunSections, NewSections;
    var flags := ParseFlags(U32(b)).value;
    var c := RunSections(b, |b| - (if flags.checksumPresent then 4 else 0), Cursor(4, None, [])).value;
    NewSectionsKeeps(c.body.value, c.sequences);
  }

  /** OP_MSG accepts exactly the bodies that spell a message, and returns it. */
  lemma ParseIff(b: bytes, m: OpMsg)
    requires |b| <= I32_MAX
    ensures ParseOpMsg(b) == Ok(m) <==> Spells(m, b)
  {
    hide ParseOpMsg, Spells;
    if ParseOpMsg(b) == Ok(m) {
      ParsedIsSpelled(b);
    }
    if Spells(m, b) {
      SpelledIsParsed(m, b);
    }
  }
}
