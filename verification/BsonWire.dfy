/** The BSON wire format in literal bytes, kind by kind (bsonspec.org,
    mongo_common/src/bson/scalar.rs, wirebson/src/encode.rs). */
module BsonWire {
  import opened Bytes
  import opened Text
  import opened ScalarCodec
  import opened BsonModel
  import opened Decode
  import opened Documents
  import opened RoundTrip

  /** The four bytes are the number in base 256, least significant first. */
  lemma LE32Weights(v: int)
    ensures var b := LE32(v);
            b[0] as int + 0x100 * (b[1] as int) + 0x1_0000 * (b[2] as int) + 0x100_0000 * (b[3] as int) ==
            v % 0x1_0000_0000
  {
    LowBytes(v);
  }

  lemma LE64Weights(v: int)
    ensures LE64(v)[..4] == LE32(v) && LE64(v)[4..] == LE32(v / 0x1_0000_0000)
  {
    hide LE32;
  }

  // ------------------------------------------------------------ element kinds

  /** A tag, a name, a NUL and a value. */
  function Element(tag: byte, name: bytes, value: bytes): bytes {
    [tag] + name + [0] + value
  }

  /** A text with its length, terminator included, in front. */
  function Prefixed(t: bytes): bytes {
    LE32(|t| + 1) + t + [0]
  }

  lemma NumberElements(name: Str, d: Bytes8, i: i32, l: i64, t: i64, q: Bytes16)
    ensures FieldBytes(Field(name, ScalarValue(Double(d)))) == Element(0x01, name, d)
    ensures FieldBytes(Field(name, ScalarValue(Int32(i)))) == Element(0x10, name, LE32(i))
    ensures FieldBytes(Field(name, ScalarValue(Int64(l)))) == Element(0x12, name, LE64(l))
    ensures FieldBytes(Field(name, ScalarValue(DateTime(t)))) == Element(0x09, name, LE64(t))
    ensures FieldBytes(Field(name, ScalarValue(Decimal128(q)))) == Element(0x13, name, q)
  {
    hide LE32, LE64;
  }

  lemma TextElements(name: Str, t: Str)
    ensures FieldBytes(Field(name, ScalarValue(String(t)))) == Element(0x02, name, Prefixed(t))
    ensures FieldBytes(Field(name, ScalarValue(JavaScript(t)))) == Element(0x0D, name, Prefixed(t))
    ensures FieldBytes(Field(name, ScalarValue(Symbol(t)))) == Element(0x0E, name, Prefixed(t))
  {
    hide LE32;
  }

  lemma IdentityElements(name: Str, id: Bytes12, namespace: Str, v: bool)
    ensures FieldBytes(Field(name, ScalarValue(ObjectId(id)))) == Element(0x07, name, id)
    ensures FieldBytes(Field(name, ScalarValue(DbPointer(namespace, id)))) ==
            Element(0x0C, name, Prefixed(namespace) + id)
    ensures FieldBytes(Field(name, ScalarValue(Bool(v)))) == Element(0x08, name, if v then [0x01] else [0x00])
  {
    hide LE32;
  }

  lemma EmptyElements(name: Str)
    ensures FieldBytes(Field(name, ScalarValue(Undefined))) == Element(0x06, name, [])
    ensures FieldBytes(Field(name, ScalarValue(Null))) == Element(0x0A, name, [])
    ensures FieldBytes(Field(name, ScalarValue(MinKey))) == Element(0xFF, name, [])
    ensures FieldBytes(Field(name, ScalarValue(MaxKey))) == Element(0x7F, name, [])
  {
  }

  /** The increment comes before the seconds. */
  lemma PairElements(name: Str, pattern: Str, options: Str, seconds: u32, increment: u32)
    ensures FieldBytes(Field(name, ScalarValue(Regex(pattern, options)))) ==
            Element(0x0B, name, pattern + [0] + options + [0])
    ensures FieldBytes(Field(name, ScalarValue(Timestamp(seconds, increment)))) ==
            Element(0x11, name, LE32(increment) + LE32(seconds))
  {
    hide LE32;
    assert pattern + [0] + (options + [0]) == pattern + [0] + options + [0];
  }

  /** Payload length, subtype, payload; the obsolete subtype counts and writes
      the length of its payload once more. */
  lemma BinaryElements(name: Str, payload: bytes, code: byte)
    ensures FieldBytes(Field(name, ScalarValue(Binary(Generic, payload)))) ==
            Element(0x05, name, LE32(|payload|) + [0x00] + payload)
    ensures FieldBytes(Field(name, ScalarValue(Binary(Function, payload)))) ==
            Element(0x05, name, LE32(|payload|) + [0x01] + payload)
    ensures FieldBytes(Field(name, ScalarValue(Binary(BinaryOld, payload)))) ==
            Element(0x05, name, LE32(|payload| + 4) + [0x02] + (LE32(|payload|) + payload))
    ensures FieldBytes(Field(name, ScalarValue(Binary(UserDefined(code), payload)))) ==
            Element(0x05, name, LE32(|payload|) + [code] + payload)
  {
    hide LE32;
    assert |LE32(|payload|) + payload| == |payload| + 4;
  }

  lemma MoreBinaryElements(name: Str, payload: bytes)
    ensures FieldBytes(Field(name, ScalarValue(Binary(UuidOld, payload)))) ==
            Element(0x05, name, LE32(|payload|) + [0x03] + payload)
    ensures FieldBytes(Field(name, ScalarValue(Binary(Uuid, payload)))) ==
            Element(0x05, name, LE32(|payload|) + [0x04] + payload)
    ensures FieldBytes(Field(name, ScalarValue(Binary(Md5, payload)))) ==
            Element(0x05, name, LE32(|payload|) + [0x05] + payload)
    ensures FieldBytes(Field(name, ScalarValue(Binary(Encrypted, payload)))) ==
            Element(0x05, name, LE32(|payload|) + [0x06] + payload)
  {
    hide LE32;
  }

  /** Reserved subtypes are refused, all others accepted. */
  lemma SubtypeAcceptedIff(b: byte)
    ensures SubtypeOf(b).Ok? <==> b <= 0x06 || b >= 0x80
    ensures b >= 0x80 ==> SubtypeOf(b) == Ok(UserDefined(b))
  {
  }

  /** Composites: total length, elements, NUL; array names count from "0". */
  lemma CompositeElements(name: Str, fs: seq<Field>, vs: seq<Bson>, code: Str, scope: bytes)
    ensures FieldBytes(Field(name, Document(fs))) ==
            Element(0x03, name, LE32(4 + |FieldsBytes(fs)| + 1) + FieldsBytes(fs) + [0])
    ensures var elements := FieldsBytes(Indexed(vs, 0));
            FieldBytes(Field(name, Array(vs))) == Element(0x04, name, LE32(4 + |elements| + 1) + elements + [0])
    ensures FieldBytes(Field(name, JavaScriptScope(code, scope))) ==
            Element(0x0F, name, LE32(4 + |Prefixed(code)| + |scope|) + Prefixed(code) + scope)
  {
    hide LE32, FieldsBytes, Indexed;
    assert ValueBytes(Document(fs)) == LE32(|FieldsBytes(fs)| + 5) + FieldsBytes(fs) + [0];
    assert StringBytes(code) == Prefixed(code);
  }

  /** The numeral's value, read from the digits "0" to "9". */
  lemma NumeralDigit(n: nat)
    ensures var d := Decimal(n);
            && d[|d| - 1] == "0123456789"[n % 10] as int
            && (n >= 10 ==> d[..|d| - 1] == Decimal(n / 10))
            && (n < 10 ==> |d| == 1)
  {
    DigitAt(n % 10);
  }

  lemma DigitAt(v: nat)
    requires v < 10
    ensures "0123456789"[v] as int == 48 + v
  {
  }

  // ------------------------------------------------------------ a whole document

  /** `{"hello": "world"}` in bytes. */
  const HELLO_WORLD: bytes := [
    0x16, 0, 0, 0,
    0x02, 104, 101, 108, 108, 111, 0,
    0x06, 0, 0, 0, 119, 111, 114, 108, 100, 0,
    0]

  const HELLO: bytes := [104, 101, 108, 108, 111]
  const WORLD: bytes := [119, 111, 114, 108, 100]

  lemma OneField(f: Field)
    requires NulFree(f.name) && FaithfulValue(f.value)
    ensures FieldsBytes([f]) == FieldBytes(f) && FieldsDepth([f]) == Depth(f.value) && FaithfulFields([f])
  {
    hide FieldBytes, FaithfulValue, NulFree, Depth;
    FieldsBytesCons(f, []);
    assert [f] + [] == [f];
    assert FaithfulFields([f][1..]) && FieldsDepth([f][1..]) == 0;
  }

  lemma HelloNames()
    ensures ValidUtf8(HELLO) && ValidUtf8(WORLD) && NulFree(HELLO)
  {
    hide ValidUtf8;
    AsciiIsUtf8(HELLO);
    AsciiIsUtf8(WORLD);
  }

  lemma HelloElement()
    requires ValidUtf8(HELLO) && ValidUtf8(WORLD)
    ensures FieldBytes(Field(HELLO, ScalarValue(String(WORLD)))) == HELLO_WORLD[4..21]
  {
    hide FieldBytes, ValidUtf8;
    TextElements(HELLO, WORLD);
    assert LE32(6) == [6, 0, 0, 0];
  }

  lemma HelloWorld(mode: Mode)
    ensures ValidUtf8(HELLO) && ValidUtf8(WORLD)
    ensures var fields := [Field(HELLO, ScalarValue(String(WORLD)))];
            DocumentBytes(fields) == HELLO_WORLD && DecodeDocument(HELLO_WORLD, mode, 1) == Ok(fields)
  {
    hide DecodeDocument, FieldsBytes, FieldBytes, FaithfulFields, FieldsDepth, ValidUtf8, NulFree;
    HelloNames();
    var f := Field(HELLO, ScalarValue(String(WORLD)));
    OneField(f);
    HelloElement();
    assert LE32(22) == [22, 0, 0, 0];
    assert DocumentBytes([f]) == [22, 0, 0, 0] + HELLO_WORLD[4..21] + [0] == HELLO_WORLD;
    DecodeOfEncode([f], mode);
  }
}
