/** Re-encoding a decoded document: canonical array names, size growth and the
    exact round-trip conditions (wirebson/src/encode.rs, wirebson/src/decode.rs,
    fuzz/fuzz_targets/fuzz_document.rs). */
module Reencode {
  import opened Bytes
  import opened Text
  import opened ScalarCodec
  import opened BsonModel
  import opened Decode
  import opened RawValue
  import opened Documents
  import opened Scan
  import opened RoundTrip

  // ------------------------------------------------------------ decoded values

  /** The fields as the encoder will name them: an array's are renumbered. */
  function Renamed(fs: seq<Field>, isArray: bool, index: nat): seq<Field> {
    if isArray then Indexed(Values(fs), index) else fs
  }

  lemma RenamedCons(f: Field, fs: seq<Field>, isArray: bool, index: nat)
    ensures Renamed([f] + fs, isArray, index)
         == [Field(if isArray then Decimal(index) else f.name, f.value)] + Renamed(fs, isArray, index + 1)
  {
    assert ([f] + fs)[1..] == fs;
    assert Values([f] + fs)[1..] == Values(fs);
  }

  lemma {:induction false} RenamedIsFaithful(fs: seq<Field>, index: nat)
    requires FaithfulFields(fs)
    ensures FaithfulFields(Renamed(fs, true, index))
    ensures FieldsDepth(Renamed(fs, true, index)) == FieldsDepth(fs)
    decreases |fs|
  {
    hide FaithfulValue, Depth, Decimal;
    if fs != [] {
      assert [fs[0]] + fs[1..] == fs;
      RenamedCons(fs[0], fs[1..], true, index);
      var es := Renamed(fs, true, index);
      assert es[1..] == Renamed(fs[1..], true, index + 1);
      DecimalNulFree(index);
      RenamedIsFaithful(fs[1..], index + 1);
    }
  }

  lemma {:induction false} DecodedIsFaithful(doc: bytes, offset: nat, mode: Mode, depth: nat)
    requires DecodeItems(doc, offset, mode, depth).Ok? && depth <= MAX_NESTING_DEPTH
    ensures var fs := DecodeItems(doc, offset, mode, depth).value;
            FaithfulFields(fs) && FieldsDepth(fs) + depth <= MAX_NESTING_DEPTH
    decreases |doc|, 1, |Body(doc)| - offset
  {
    hide ScanNext, Materialize, FaithfulValue, Depth, ItemBytes;
    var step := ScanNext(doc, offset).value;
    if step.Item? {
      ScanExact(doc, offset);
      MaterializedIsFaithful(step.value, mode, depth);
      DecodedIsFaithful(doc, step.next, mode, depth);
      var fs := DecodeItems(doc, offset, mode, depth).value;
      assert fs[1..] == DecodeItems(doc, step.next, mode, depth).value;
    }
  }

  lemma {:induction false} MaterializedIsFaithful(raw: RawBson, mode: Mode, depth: nat)
    requires ValidRaw(raw) && Materialize(raw, mode, depth).Ok? && depth <= MAX_NESTING_DEPTH
    ensures var v := Materialize(raw, mode, depth).value;
            FaithfulValue(v) && Depth(v) + depth <= MAX_NESTING_DEPTH && Tag(v) == RawTag(raw)
    decreases ChildSize(raw), 5
  {
    hide DecodeItems, FaithfulFields, FieldsDepth, Values, Indexed;
    if Composite(raw) {
      DecodedIsFaithful(raw.bytes, 0, mode, depth + 1);
      RenamedIsFaithful(DecodeItems(raw.bytes, 0, mode, depth + 1).value, 0);
    } else if raw.RawScalar? {
      assert ToBson(raw) == Ok(ScalarValue(raw.scalar));
    }
  }

  // ------------------------------------------------------------ canonical names

  /** Every array below has its elements named "0", "1", … in order; scopes are
      not looked into. */
  predicate CanonicalItems(doc: bytes, offset: nat, isArray: bool, index: nat)
    decreases |doc|, 1, |Body(doc)| - offset
  {
    match ScanNext(doc, offset)
    case Ok(Item(name, raw, next)) =>
      && (isArray ==> name == Decimal(index))
      && CanonicalRaw(raw)
      && CanonicalItems(doc, next, isArray, index + 1)
    case _ => true
  }

  predicate CanonicalRaw(raw: RawBson)
    decreases ChildSize(raw), 5
  {
    match raw
    case RawDocument(b) => CanonicalItems(b, 0, false, 0)
    case RawArray(b) => CanonicalItems(b, 0, true, 0)
    case _ => true
  }

  lemma ItemBytesIsFieldBytes(name: Str, raw: RawBson, v: Bson)
    requires Tag(v) == RawTag(raw) && ValueBytes(v) == RawBytes(raw)
    ensures FieldBytes(Field(name, v)) == ItemBytes(name, raw)
  {
  }

  lemma {:induction false} ReencodeItems(doc: bytes, offset: nat, mode: Mode, depth: nat, isArray: bool, index: nat)
    requires DecodeItems(doc, offset, mode, depth).Ok? && depth <= MAX_NESTING_DEPTH
    requires CanonicalItems(doc, offset, isArray, index)
    ensures FieldsBytes(Renamed(DecodeItems(doc, offset, mode, depth).value, isArray, index)) + [0] ==
            Body(doc)[offset..]
    decreases |doc|, 1, |Body(doc)| - offset
  {
    hide ScanNext, Materialize, ItemBytes, FieldBytes, CanonicalRaw, Renamed, Decimal;
    var step := ScanNext(doc, offset).value;
    ScanExact(doc, offset);
    if step.Item? {
      var v := Materialize(step.value, mode, depth).value;
      var fs := DecodeItems(doc, step.next, mode, depth).value;
      MaterializedIsFaithful(step.value, mode, depth);
      ReencodeRaw(step.value, mode, depth);
      ReencodeItems(doc, step.next, mode, depth, isArray, index + 1);
      ItemBytesIsFieldBytes(step.name, step.value, v);
      RenamedCons(Field(step.name, v), fs, isArray, index);
      FieldsBytesCons(Field(step.name, v), Renamed(fs, isArray, index + 1));
    } else {
      RenamedEmpty(isArray, index);
    }
  }

  lemma RenamedEmpty(isArray: bool, index: nat)
    ensures Renamed([], isArray, index) == []
  {
  }

  lemma {:induction false} ReencodeRaw(raw: RawBson, mode: Mode, depth: nat)
    requires ValidRaw(raw) && Materialize(raw, mode, depth).Ok? && depth <= MAX_NESTING_DEPTH
    requires CanonicalRaw(raw)
    ensures ValueBytes(Materialize(raw, mode, depth).value) == RawBytes(raw)
    decreases ChildSize(raw), 5
  {
    hide DecodeItems, FieldsBytes, Indexed, Values, LE32, U32, Body, Framed;
    if Composite(raw) {
      var fs := DecodeItems(raw.bytes, 0, mode, depth + 1).value;
      ReencodeItems(raw.bytes, 0, mode, depth + 1, raw.RawArray?, 0);
      FramedBody(raw.bytes, FieldsBytes(Renamed(fs, raw.RawArray?, 0)));
    } else if raw.RawScalar? {
      assert ToBson(raw) == Ok(ScalarValue(raw.scalar));
    }
  }

  lemma NoFieldsBytes()
    ensures FieldsBytes([]) == []
  {
  }

  /** Whatever the encoder writes is canonical. */
  lemma {:induction false} CanonicalOf(doc: bytes, offset: nat, fs: seq<Field>, isArray: bool, index: nat)
    requires offset <= |Body(doc)| && Body(doc)[offset..] == FieldsBytes(Renamed(fs, isArray, index)) + [0]
    requires FaithfulFields(fs) && |doc| <= U32_MAX
    ensures CanonicalItems(doc, offset, isArray, index)
    decreases FieldsSize(fs), 2, |fs|
  {
    hide ScanNext, CanonicalRaw, FieldBytes, FieldsBytes, RawOf, FaithfulValue, Renamed, Decimal, NulFree;
    if fs == [] {
      assert FieldsBytes([]) + [0] == [0] by {
        NoFieldsBytes();
      }
      RenamedEmpty(isArray, index);
      ScanOfEnd(doc, offset);
    } else {
      assert [fs[0]] + fs[1..] == fs;
      RenamedCons(fs[0], fs[1..], isArray, index);
      var f := Field(if isArray then Decimal(index) else fs[0].name, fs[0].value);
      var es := Renamed(fs[1..], isArray, index + 1);
      FieldsBytesCons(f, es);
      DecimalNulFree(index);
      FieldBytesLength(f);
      var rest := FieldsBytes(es) + [0];
      assert Body(doc)[offset..] == FieldBytes(f) + rest;
      Behind(Body(doc), offset, FieldBytes(f), rest);
      ScanOfField(doc, offset, f, rest);
      CanonicalRawOf(f.value);
      CanonicalOf(doc, offset + |FieldBytes(f)|, fs[1..], isArray, index + 1);
    }
  }

  lemma {:induction false} CanonicalRawOf(v: Bson)
    requires FaithfulValue(v) && |ValueBytes(v)| <= U32_MAX
    ensures CanonicalRaw(RawOf(v))
    decreases Size(v), 0
  {
    hide CanonicalItems, FieldsBytes, Framed, Body, LE32, Indexed;
    match v
    case Document(fs) =>
      BodyOfFramed(FieldsBytes(fs));
      CanonicalOf(ValueBytes(v), 0, fs, false, 0);
    case Array(vs) =>
      ValuesOfIndexed(vs, 0);
      BodyOfFramed(FieldsBytes(Indexed(vs, 0)));
      CanonicalOf(ValueBytes(v), 0, Indexed(vs, 0), true, 0);
    case _ =>
  }

  // ------------------------------------------------------------ size growth

  lemma {:induction false} GrowthItems(doc: bytes, offset: nat, mode: Mode, depth: nat, isArray: bool, index: nat)
    requires DecodeItems(doc, offset, mode, depth).Ok? && depth <= MAX_NESTING_DEPTH
    requires offset <= |Body(doc)| && 2 * index + |Body(doc)| - offset <= MAX_MSG_LEN
    ensures |FieldsBytes(Renamed(DecodeItems(doc, offset, mode, depth).value, isArray, index))|
         <= 5 * (|Body(doc)| - offset - 1)
    decreases |doc|, 1, |Body(doc)| - offset
  {
    hide ScanNext, Materialize, FieldBytes, Renamed, Decimal, RawBytes;
    var step := ScanNext(doc, offset).value;
    ScanExact(doc, offset);
    if step.Item? {
      var v := Materialize(step.value, mode, depth).value;
      var fs := DecodeItems(doc, step.next, mode, depth).value;
      GrowthRaw(step.value, mode, depth);
      GrowthItems(doc, step.next, mode, depth, isArray, index + 1);
      RenamedCons(Field(step.name, v), fs, isArray, index);
      assert |Decimal(index)| <= 8 by {
        assert Pow10(8) == 100_000_000;
        DecimalLength(index, 8);
      }
      var f := Field(if isArray then Decimal(index) else step.name, v);
      FieldsBytesCons(f, Renamed(fs, isArray, index + 1));
      FieldBytesLength(f);
    } else {
      RenamedEmpty(isArray, index);
    }
  }

  lemma {:induction false} GrowthRaw(raw: RawBson, mode: Mode, depth: nat)
    requires ValidRaw(raw) && Materialize(raw, mode, depth).Ok? && depth <= MAX_NESTING_DEPTH
    requires |RawBytes(raw)| <= MAX_MSG_LEN
    ensures |ValueBytes(Materialize(raw, mode, depth).value)| <= 5 * |RawBytes(raw)|
    decreases ChildSize(raw), 5
  {
    hide DecodeItems, FieldsBytes, Indexed, Values, LE32, U32;
    if Composite(raw) {
      GrowthItems(raw.bytes, 0, mode, depth + 1, raw.RawArray?, 0);
    } else if raw.RawScalar? {
      assert ToBson(raw) == Ok(ScalarValue(raw.scalar));
    }
  }

  // ------------------------------------------------------------ the theorems

  /** A decoded document encodes again exactly when its encoding stays within
      `i32::MAX` bytes; that encoding decodes to the same document, and it is
      the input exactly when the input's array names were canonical. */
  lemma ReencodeDecoded(b: bytes, mode: Mode)
    requires ValidDocument(b) && DecodeDocument(b, mode, 1).Ok?
    ensures var fs := DecodeDocument(b, mode, 1).value;
            && (EncodesValue(Document(fs)) <==> |DocumentBytes(fs)| <= I32_MAX)
            && (EncodesValue(Document(fs)) ==> DecodeDocument(DocumentBytes(fs), mode, 1) == Ok(fs))
            && (DocumentBytes(fs) == b <==> CanonicalItems(b, 0, false, 0))
  {
    hide DecodeItems, CanonicalItems, FieldsBytes, Framed, FaithfulFields, CleanFields, U32, Body;
    var fs := DecodeDocument(b, mode, 1).value;
    DecodedIsFaithful(b, 0, mode, 1);
    FaithfulFieldsAreClean(fs);
    DocumentEncodesIff(fs);
    if |DocumentBytes(fs)| <= U32_MAX {
      DecodeOfEncode(fs, mode);
      BodyOfFramed(FieldsBytes(fs));
      CanonicalOf(DocumentBytes(fs), 0, fs, false, 0);
    }
    if CanonicalItems(b, 0, false, 0) {
      ReencodeItems(b, 0, mode, 1, false, 0);
      FramedBody(b, FieldsBytes(fs));
    }
  }

  /** Within the message size limit re-encoding grows a document at most five
      times, so it always succeeds. */
  lemma ReencodeWithinLimit(b: bytes, mode: Mode)
    requires ValidDocument(b) && |b| <= 48_000_000 && DecodeDocument(b, mode, 1).Ok?
    ensures var fs := DecodeDocument(b, mode, 1).value;
            |DocumentBytes(fs)| <= 5 * |b| && EncodesValue(Document(fs))
  {
    hide DecodeItems, FieldsBytes, EncodesValue, U32;
    GrowthItems(b, 0, mode, 1, false, 0);
    ReencodeDecoded(b, mode);
  }

  /** One re-encoding reaches a fixpoint: decoding and encoding it again gives
      the same bytes. */
  lemma ReencodeIsIdempotent(b: bytes, mode: Mode)
    requires ValidDocument(b) && DecodeDocument(b, mode, 1).Ok?
    requires EncodesValue(Document(DecodeDocument(b, mode, 1).value))
    ensures var once := DocumentBytes(DecodeDocument(b, mode, 1).value);
            && ValidDocument(once) && CanonicalItems(once, 0, false, 0)
            && DecodeDocument(once, mode, 1).Ok?
            && DocumentBytes(DecodeDocument(once, mode, 1).value) == once
  {
    hide DecodeItems, CanonicalItems, FieldsBytes, Framed, EncodesFields, U32;
    var fs := DecodeDocument(b, mode, 1).value;
    ReencodeDecoded(b, mode);
    FramedIsValid(FieldsBytes(fs));
    ReencodeDecoded(DocumentBytes(fs), mode);
  }

  /** An encodable document survives the round trip exactly when its user
      subtypes, scopes and nesting are ones the decoder accepts. */
  lemma RoundTripIff(fs: seq<Field>, mode: Mode)
    requires EncodesValue(Document(fs))
    ensures DecodeDocument(DocumentBytes(fs), mode, 1) == Ok(fs)
       <==> FaithfulFields(fs) && Depth(Document(fs)) <= 20
  {
    hide DecodeItems, FaithfulFields, FieldsBytes, Framed, EncodesFields;
    if DecodeDocument(DocumentBytes(fs), mode, 1) == Ok(fs) {
      DecodedIsFaithful(DocumentBytes(fs), 0, mode, 1);
    }
    if FaithfulFields(fs) {
      DecodeOfEncode(fs, mode);
    }
  }

  // ------------------------------------------------------------ where it fails

  /** A document of more than `i32::MAX` bytes that validates and decodes but
      does not encode again: lengths are read unsigned and written signed. */
  lemma OversizeDocumentDoesNotReencode(payload: bytes)
    requires |payload| == 0x8000_0000
    ensures var fs := [Field([97], ScalarValue(Binary(Generic, payload)))];
            var b := DocumentBytes(fs);
            ValidDocument(b) && DecodeDocument(b, Deep, 1) == Ok(fs) && !EncodesValue(Document(fs))
  {
    hide DecodeItems, LE32, U32;
    AsciiIsUtf8([97]);
    var f := Field([97], ScalarValue(Binary(Generic, payload)));
    FieldsBytesCons(f, []);
    FieldBytesLength(f);
    assert [f] + [] == [f] && [f][1..] == [];
    assert |FieldsBytes([f])| == 8 + |payload|;
    assert FaithfulFields([f]) && Depth(f.value) == 0 && FieldsDepth([f]) == 0;
    FramedIsValid(FieldsBytes([f]));
    DecodeOfEncode([f], Deep);
  }

  /** A user subtype below 0x80 encodes but does not come back. */
  lemma LowUserSubtypeDoesNotRoundTrip(code: byte, payload: bytes, name: Str)
    requires code < 0x80 && NulFree(name) && |name| + |payload| + 12 <= I32_MAX
    ensures var fs := [Field(name, ScalarValue(Binary(UserDefined(code), payload)))];
            EncodesValue(Document(fs)) && DecodeDocument(DocumentBytes(fs), Deep, 1) != Ok(fs)
  {
    hide DecodeItems, LE32, U32;
    var f := Field(name, ScalarValue(Binary(UserDefined(code), payload)));
    FieldsBytesCons(f, []);
    FieldBytesLength(f);
    assert [f] + [] == [f] && [f][1..] == [];
    assert |FieldsBytes([f])| == 7 + |name| + |payload|;
    assert EncodesFields([]) && EncodesFields([f]) && !FaithfulFields([f]);
    RoundTripIff([f], Deep);
  }
}
