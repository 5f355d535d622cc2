/** Encoding and decoding are inverse (wirebson/src/encode.rs,
    wirebson/src/decode.rs, fuzz/fuzz_targets/fuzz_document.rs). */
module RoundTrip {
  import opened Bytes
  import opened Text
  import opened BsonModel
  import opened Decode
  import opened RawValue
  import opened Documents
  import opened Scan

  // ------------------------------------------------------------ decode after encode

  lemma ItemIsField(f: Field)
    requires FaithfulValue(f.value) && |ValueBytes(f.value)| <= U32_MAX
    ensures ItemBytes(f.name, RawOf(f.value)) == FieldBytes(f) && ValidRaw(RawOf(f.value))
  {
    hide ValueBytes, FaithfulValue, RawOf, RawBytes, Tag, RawTag;
    RawOfIsValid(f.value);
  }

  lemma ScanOfField(doc: bytes, offset: nat, f: Field, rest: bytes)
    requires offset <= |Body(doc)| && Body(doc)[offset..] == FieldBytes(f) + rest
    requires NulFree(f.name) && FaithfulValue(f.value) && |doc| <= U32_MAX
    ensures ScanNext(doc, offset) == Ok(Item(f.name, RawOf(f.value), offset + |FieldBytes(f)|))
  {
    hide FieldBytes, ItemBytes, FaithfulValue, RawOf, ScanNext, ValidRaw;
    Behind(Body(doc), offset, FieldBytes(f), rest);
    FieldBytesLength(f);
    ItemIsField(f);
    ScanOfItem(doc, offset, f.name, RawOf(f.value), rest);
  }

  lemma BodyOfFramed(elements: bytes)
    ensures Body(Framed(elements)) == elements + [0]
  {
    hide LE32;
  }

  lemma FramedBody(b: bytes, elements: bytes)
    requires ValidDocument(b) && elements + [0] == Body(b)[0..]
    ensures Framed(elements) == b
  {
    hide LE32, U32;
    LE32OfU32(b);
    assert Body(b) == b[4..];
    assert |elements| + 5 == |b|;
  }

  function DepthResult<T>(fits: bool, v: T): Result<T, Error> {
    if fits then Ok(v) else Err(NestedTooDeep(MAX_NESTING_DEPTH))
  }

  lemma {:induction false} DecodeItemsOf(doc: bytes, offset: nat, fs: seq<Field>, mode: Mode, depth: nat)
    requires offset <= |Body(doc)| && Body(doc)[offset..] == FieldsBytes(fs) + [0]
    requires FaithfulFields(fs) && |doc| <= U32_MAX && depth <= MAX_NESTING_DEPTH
    ensures DecodeItems(doc, offset, mode, depth) == DepthResult(FieldsDepth(fs) + depth <= MAX_NESTING_DEPTH, fs)
    decreases FieldsSize(fs), 2, |fs|
  {
    hide ScanNext, Materialize, FieldBytes, RawOf, FaithfulValue, Depth;
    if fs == [] {
      ScanOfEnd(doc, offset);
    } else {
      var f, rest := fs[0], FieldsBytes(fs[1..]) + [0];
      assert Body(doc)[offset..] == FieldBytes(f) + rest;
      FieldBytesLength(f);
      ScanOfField(doc, offset, f, rest);
      MaterializeOf(f.value, mode, depth);
      var next := offset + |FieldBytes(f)|;
      assert Body(doc)[next..] == Body(doc)[offset..][|FieldBytes(f)|..];
      DecodeItemsOf(doc, next, fs[1..], mode, depth);
      assert [Field(f.name, f.value)] + fs[1..] == fs;
    }
  }

  lemma FieldBytesLength(f: Field)
    ensures |FieldBytes(f)| == 2 + |f.name| + |ValueBytes(f.value)|
  {
  }

  lemma {:induction false} MaterializeOf(v: Bson, mode: Mode, depth: nat)
    requires FaithfulValue(v) && |ValueBytes(v)| <= U32_MAX && depth <= MAX_NESTING_DEPTH
    ensures Materialize(RawOf(v), mode, depth) == DepthResult(Depth(v) + depth <= MAX_NESTING_DEPTH, v)
    decreases Size(v), 0
  {
    hide DecodeItems, FieldsBytes, Framed, Body, LE32;
    match v
    case Document(fs) =>
      BodyOfFramed(FieldsBytes(fs));
      if depth < MAX_NESTING_DEPTH {
        DecodeItemsOf(ValueBytes(v), 0, fs, mode, depth + 1);
      }
    case Array(vs) =>
      BodyOfFramed(FieldsBytes(Indexed(vs, 0)));
      ValuesOfIndexed(vs, 0);
      if depth < MAX_NESTING_DEPTH {
        DecodeItemsOf(ValueBytes(v), 0, Indexed(vs, 0), mode, depth + 1);
      }
    case _ => assert ToBson(RawOf(v)) == Ok(v);
  }

  /** Every faithful document decodes from its encoding to itself when it nests
      at most twenty levels, and to `NestedTooDeep` otherwise. */
  lemma DecodeOfEncode(fs: seq<Field>, mode: Mode)
    requires FaithfulFields(fs) && |DocumentBytes(fs)| <= U32_MAX
    ensures DecodeDocument(DocumentBytes(fs), mode, 1)
         == DepthResult(Depth(Document(fs)) <= 20, fs)
  {
    hide DecodeItems, FieldsBytes, Framed, Body;
    BodyOfFramed(FieldsBytes(fs));
    DecodeItemsOf(DocumentBytes(fs), 0, fs, mode, 1);
  }
}
