/** BSON scalars: tags, values, the owning parser and the encoder
    (mongo_common/src/bson/scalar.rs). */
module ScalarCodec {
  import opened Bytes
  import opened Text
  import opened Io

  const TAG_DOUBLE: byte := 0x01
  const TAG_STRING: byte := 0x02
  const TAG_DOCUMENT: byte := 0x03
  const TAG_ARRAY: byte := 0x04
  const TAG_BINARY: byte := 0x05
  const TAG_UNDEFINED: byte := 0x06
  const TAG_OBJECT_ID: byte := 0x07
  const TAG_BOOL: byte := 0x08
  const TAG_DATE_TIME: byte := 0x09
  const TAG_NULL: byte := 0x0A
  const TAG_REGEX: byte := 0x0B
  const TAG_DB_POINTER: byte := 0x0C
  const TAG_JAVASCRIPT: byte := 0x0D
  const TAG_SYMBOL: byte := 0x0E
  const TAG_JAVASCRIPT_SCOPE: byte := 0x0F
  const TAG_INT32: byte := 0x10
  const TAG_TIMESTAMP: byte := 0x11
  const TAG_INT64: byte := 0x12
  const TAG_DECIMAL128: byte := 0x13
  const TAG_MIN_KEY: byte := 0xFF
  const TAG_MAX_KEY: byte := 0x7F

  const MIN_DOC_LEN := 5

  predicate CompositeTag(tag: byte) {
    tag == TAG_DOCUMENT || tag == TAG_ARRAY || tag == TAG_JAVASCRIPT_SCOPE
  }

  type Bytes8 = b: bytes | |b| == 8 witness [0, 0, 0, 0, 0, 0, 0, 0]
  type Bytes12 = b: bytes | |b| == 12 witness [0, 0, 0, 0, 0, 0, 0, 0, 0, 0, 0, 0]
  type Bytes16 = b: bytes | |b| == 16 witness [0, 0, 0, 0, 0, 0, 0, 0, 0, 0, 0, 0, 0, 0, 0, 0]

  datatype BinarySubtype =
    | Generic | Function | BinaryOld | UuidOld | Uuid | Md5 | Encrypted
    | UserDefined(code: byte)

  function SubtypeByte(t: BinarySubtype): byte {
    match t
    case Generic => 0x00
    case Function => 0x01
    case BinaryOld => 0x02
    case UuidOld => 0x03
    case Uuid => 0x04
    case Md5 => 0x05
    case Encrypted => 0x06
    case UserDefined(b) => b
  }

  function SubtypeOf(b: byte): Result<BinarySubtype, ScalarError> {
    if b == 0x00 then Ok(Generic)
    else if b == 0x01 then Ok(Function)
    else if b == 0x02 then Ok(BinaryOld)
    else if b == 0x03 then Ok(UuidOld)
    else if b == 0x04 then Ok(Uuid)
    else if b == 0x05 then Ok(Md5)
    else if b == 0x06 then Ok(Encrypted)
    else if b <= 0x7F then Err(Invalid(b, "reserved binary subtype"))
    else Ok(UserDefined(b))
  }

  /** Doubles, object ids and decimals are carried as their wire bytes. */
  datatype Scalar =
    | Double(bits: Bytes8)
    | String(text: Str)
    | Binary(subtype: BinarySubtype, payload: bytes)
    | Undefined
    | ObjectId(id: Bytes12)
    | Bool(flag: bool)
    | DateTime(millis: i64)
    | Null
    | Regex(pattern: Str, options: Str)
    | DbPointer(namespace: Str, target: Bytes12)
    | JavaScript(code: Str)
    | Symbol(symbol: Str)
    | Int32(int32: i32)
    | Timestamp(seconds: u32, increment: u32)
    | Int64(int64: i64)
    | Decimal128(decimal: Bytes16)
    | MinKey
    | MaxKey

  datatype ScalarError =
    | ShortScalar(needed: nat, got: nat)
    | Invalid(tag: byte, reason: string)
    | Utf8Scalar
    | OutOfRange

  function TagOf(s: Scalar): byte {
    match s
    case Double(_) => TAG_DOUBLE
    case String(_) => TAG_STRING
    case Binary(_, _) => TAG_BINARY
    case Undefined => TAG_UNDEFINED
    case ObjectId(_) => TAG_OBJECT_ID
    case Bool(_) => TAG_BOOL
    case DateTime(_) => TAG_DATE_TIME
    case Null => TAG_NULL
    case Regex(_, _) => TAG_REGEX
    case DbPointer(_, _) => TAG_DB_POINTER
    case JavaScript(_) => TAG_JAVASCRIPT
    case Symbol(_) => TAG_SYMBOL
    case Int32(_) => TAG_INT32
    case Timestamp(_, _) => TAG_TIMESTAMP
    case Int64(_) => TAG_INT64
    case Decimal128(_) => TAG_DECIMAL128
    case MinKey => TAG_MIN_KEY
    case MaxKey => TAG_MAX_KEY
  }

  // ------------------------------------------------------------ parsing

  function Lift<T>(r: Result<T, ReadError>): Result<T, ScalarError> {
    match r
    case Ok(v) => Ok(v)
    case Err(ShortInput(needed, got)) => Err(ShortScalar(needed, got))
  }

  type Parsed<+T> = Result<(T, bytes), ScalarError>

  function ParseString(r: bytes, tag: byte): Parsed<Str> {
    var (len, r1) :- Lift(ReadU32(r));
    if len == 0 then Err(Invalid(tag, "zero-length string")) else
    var (text, r2) :- Lift(ReadBytes(r1, len - 1));
    var (nul, r3) :- Lift(ReadU8(r2));
    if nul != 0 then Err(Invalid(tag, "string not NUL-terminated"))
    else if !ValidUtf8(text) then Err(Utf8Scalar)
    else Ok((text, r3))
  }

  function ReadCStringStr(r: bytes): Parsed<Str> {
    var (text, r1) :- Lift(ReadCString(r));
    if !ValidUtf8(text) then Err(Utf8Scalar) else Ok((text, r1))
  }

  /** The payload behind length and subtype; the obsolete subtype 2 repeats its
      length in front. */
  function ParsePayload(subtype: BinarySubtype, len: u32, r: bytes, tag: byte): Parsed<bytes> {
    if subtype == BinaryOld then
      var (inner, r1) :- Lift(ReadU32(r));
      if inner as int + 4 != len then Err(Invalid(tag, "old binary inner length mismatch"))
      else Lift(ReadBytes(r1, inner))
    else
      Lift(ReadBytes(r, len))
  }

  function ParseBinary(r: bytes, tag: byte): Parsed<Scalar> {
    var (len, r1) :- Lift(ReadU32(r));
    var (code, r2) :- Lift(ReadU8(r1));
    var subtype :- SubtypeOf(code);
    var (payload, r3) :- ParsePayload(subtype, len, r2, tag);
    Ok((Binary(subtype, payload), r3))
  }

  /** The scalar at the front of `r` and the cursor behind it. */
  function ParseScalarAt(tag: byte, r: bytes): Parsed<Scalar> {
    if tag == TAG_DOUBLE then
      var (b, r1) :- Lift(ReadBytes(r, 8));
      Ok((Double(b), r1))
    else if tag == TAG_STRING then
      var (t, r1) :- ParseString(r, tag);
      Ok((String(t), r1))
    else if tag == TAG_BINARY then
      ParseBinary(r, tag)
    else if tag == TAG_UNDEFINED then
      Ok((Undefined, r))
    else if tag == TAG_OBJECT_ID then
      var (b, r1) :- Lift(ReadBytes(r, 12));
      Ok((ObjectId(b), r1))
    else if tag == TAG_BOOL then
      var (b, r1) :- Lift(ReadU8(r));
      if b == 0 then Ok((Bool(false), r1))
      else if b == 1 then Ok((Bool(true), r1))
      else Err(Invalid(tag, "invalid bool byte"))
    else if tag == TAG_DATE_TIME then
      var (v, r1) :- Lift(ReadI64(r));
      Ok((DateTime(v), r1))
    else if tag == TAG_NULL then
      Ok((Null, r))
    else if tag == TAG_REGEX then
      var (pattern, r1) :- ReadCStringStr(r);
      var (options, r2) :- ReadCStringStr(r1);
      Ok((Regex(pattern, options), r2))
    else if tag == TAG_DB_POINTER then
      var (namespace, r1) :- ParseString(r, tag);
      var (b, r2) :- Lift(ReadBytes(r1, 12));
      Ok((DbPointer(namespace, b), r2))
    else if tag == TAG_JAVASCRIPT then
      var (t, r1) :- ParseString(r, tag);
      Ok((JavaScript(t), r1))
    else if tag == TAG_SYMBOL then
      var (t, r1) :- ParseString(r, tag);
      Ok((Symbol(t), r1))
    else if tag == TAG_INT32 then
      var (v, r1) :- Lift(ReadI32(r));
      Ok((Int32(v), r1))
    else if tag == TAG_TIMESTAMP then
      var (increment, r1) :- Lift(ReadU32(r));
      var (seconds, r2) :- Lift(ReadU32(r1));
      Ok((Timestamp(seconds, increment), r2))
    else if tag == TAG_INT64 then
      var (v, r1) :- Lift(ReadI64(r));
      Ok((Int64(v), r1))
    else if tag == TAG_DECIMAL128 then
      var (b, r1) :- Lift(ReadBytes(r, 16));
      Ok((Decimal128(b), r1))
    else if tag == TAG_MIN_KEY then
      Ok((MinKey, r))
    else if tag == TAG_MAX_KEY then
      Ok((MaxKey, r))
    else if CompositeTag(tag) then
      Err(Invalid(tag, "composite type; handled by wirebson"))
    else
      Err(Invalid(tag, "unknown element type"))
  }

  /** Parse one scalar value given its tag: the value and the bytes consumed. */
  function ParseScalar(tag: byte, input: bytes): Result<(Scalar, int), ScalarError> {
    var (s, rest) :- ParseScalarAt(tag, input);
    Ok((s, |input| - |rest|))
  }

  // ------------------------------------------------------------ encoding

  function StringBytes(s: bytes): bytes {
    LE32(|s| + 1) + s + [0]
  }

  function PayloadBytes(subtype: BinarySubtype, payload: bytes): bytes {
    if subtype == BinaryOld then LE32(|payload|) + payload else payload
  }

  function BinaryBytes(subtype: BinarySubtype, payload: bytes): bytes {
    LE32(|PayloadBytes(subtype, payload)|) + [SubtypeByte(subtype)] + PayloadBytes(subtype, payload)
  }

  /** The wire bytes of a scalar value, without tag and name. */
  function ScalarBytes(s: Scalar): bytes {
    match s
    case Double(b) => b
    case String(t) => StringBytes(t)
    case Binary(subtype, payload) => BinaryBytes(subtype, payload)
    case Undefined => []
    case ObjectId(b) => b
    case Bool(v) => [if v then 1 else 0]
    case DateTime(v) => LE64(v)
    case Null => []
    case Regex(p, o) => p + [0] + (o + [0])
    case DbPointer(n, b) => StringBytes(n) + b
    case JavaScript(t) => StringBytes(t)
    case Symbol(t) => StringBytes(t)
    case Int32(v) => LE32(v)
    case Timestamp(seconds, increment) => LE32(increment) + LE32(seconds)
    case Int64(v) => LE64(v)
    case Decimal128(b) => b
    case MinKey => []
    case MaxKey => []
  }

  /** `encode_scalar` succeeds: every length fits an `i32` and no NUL sits in a
      NUL-terminated position. */
  predicate Encodes(s: Scalar) {
    match s
    case String(t) => |t| + 1 <= I32_MAX
    case JavaScript(t) => |t| + 1 <= I32_MAX
    case Symbol(t) => |t| + 1 <= I32_MAX
    case DbPointer(n, _) => |n| + 1 <= I32_MAX
    case Binary(subtype, payload) => |payload| + (if subtype == BinaryOld then 4 else 0) <= I32_MAX
    case Regex(p, o) => NulFree(p) && NulFree(o)
    case _ => true
  }

  /** The values the parser can produce: user subtypes are 0x80 and above, and
      the parts of a regex hold no NUL. */
  predicate Representable(s: Scalar) {
    match s
    case Binary(UserDefined(b), _) => b >= 0x80
    case Regex(p, o) => NulFree(p) && NulFree(o)
    case _ => true
  }

  // ------------------------------------------------------------ round trip

  lemma SubtypeRoundTrip(t: BinarySubtype)
    ensures SubtypeOf(SubtypeByte(t)) == Ok(t) <==> (t.UserDefined? ==> t.code >= 0x80)
  {
  }

  lemma ParseStringOf(s: Str, rest: bytes, tag: byte)
    requires |s| + 1 <= U32_MAX
    ensures ParseString(StringBytes(s) + rest, tag) == Ok((s, rest))
  {
    assert StringBytes(s) + rest == LE32(|s| + 1) + (s + ([0] + rest));
    ReadU32Of(|s| + 1, s + ([0] + rest));
    ReadBytesOf(s, [0] + rest);
    ReadBytesOf([0], rest);
  }

  lemma ReadCStringStrOf(s: Str, rest: bytes)
    requires NulFree(s)
    ensures ReadCStringStr(s + [0] + rest) == Ok((s, rest))
  {
    ReadCStringOf(s, rest);
  }

  lemma ParsePayloadOf(subtype: BinarySubtype, payload: bytes, rest: bytes, tag: byte)
    requires |PayloadBytes(subtype, payload)| <= U32_MAX
    ensures var p := PayloadBytes(subtype, payload);
            ParsePayload(subtype, |p|, p + rest, tag) == Ok((payload, rest))
  {
    hide LE32, U32;
    if subtype == BinaryOld {
      assert PayloadBytes(subtype, payload) + rest == LE32(|payload|) + (payload + rest);
      ReadU32Of(|payload|, payload + rest);
    }
    ReadBytesOf(payload, rest);
  }

  lemma ParseBinaryOf(subtype: BinarySubtype, payload: bytes, rest: bytes, tag: byte)
    requires subtype.UserDefined? ==> subtype.code >= 0x80
    requires |BinaryBytes(subtype, payload)| <= U32_MAX
    ensures ParseBinary(BinaryBytes(subtype, payload) + rest, tag) == Ok((Binary(subtype, payload), rest))
  {
    hide LE32, U32, ParsePayload, PayloadBytes;
    var code := [SubtypeByte(subtype)];
    var p := PayloadBytes(subtype, payload);
    assert BinaryBytes(subtype, payload) + rest == LE32(|p|) + (code + (p + rest));
    SubtypeRoundTrip(subtype);
    ReadU32Of(|p|, code + (p + rest));
    ReadBytesOf(code, p + rest);
    ParsePayloadOf(subtype, payload, rest, tag);
  }

  predicate Textual(s: Scalar) {
    s.String? || s.JavaScript? || s.Symbol? || s.DbPointer? || s.Regex?
  }

  predicate Numeric(s: Scalar) {
    s.DateTime? || s.Int32? || s.Int64? || s.Timestamp?
  }

  lemma ParseTextualOf(s: Scalar, rest: bytes)
    requires Textual(s) && Representable(s) && |ScalarBytes(s)| <= U32_MAX
    ensures ParseScalarAt(TagOf(s), ScalarBytes(s) + rest) == Ok((s, rest))
  {
    hide ParseString, ReadCStringStr, LE32, ValidUtf8;
    match s
    case Regex(p, o) =>
      assert ScalarBytes(s) + rest == p + [0] + (o + [0] + rest);
      ReadCStringStrOf(p, o + [0] + rest);
      ReadCStringStrOf(o, rest);
    case DbPointer(n, b) =>
      assert ScalarBytes(s) + rest == StringBytes(n) + (b + rest);
      ParseStringOf(n, b + rest, TAG_DB_POINTER);
      ReadBytesOf(b, rest);
    case String(t) => ParseStringOf(t, rest, TAG_STRING);
    case JavaScript(t) => ParseStringOf(t, rest, TAG_JAVASCRIPT);
    case Symbol(t) => ParseStringOf(t, rest, TAG_SYMBOL);
  }

  lemma ParseNumericOf(s: Scalar, rest: bytes)
    requires Numeric(s)
    ensures ParseScalarAt(TagOf(s), ScalarBytes(s) + rest) == Ok((s, rest))
  {
    hide LE32, ReadI32, ReadI64, ReadU32;
    match s
    case DateTime(v) => ReadI64Of(v, rest);
    case Int64(v) => ReadI64Of(v, rest);
    case Int32(v) => ReadI32Of(v, rest);
    case Timestamp(seconds, increment) =>
      assert ScalarBytes(s) + rest == LE32(increment) + (LE32(seconds) + rest);
      ReadU32Of(increment, LE32(seconds) + rest);
      ReadU32Of(seconds, rest);
  }

  lemma ParseOpaqueOf(s: Scalar, rest: bytes)
    requires !Textual(s) && !Numeric(s) && !s.Binary?
    ensures ParseScalarAt(TagOf(s), ScalarBytes(s) + rest) == Ok((s, rest))
  {
    ReadBytesOf(ScalarBytes(s), rest);
    assert |ScalarBytes(s)| == 0 ==> ScalarBytes(s) + rest == rest;
  }

  /** Parsing an encoded scalar followed by anything returns that scalar and
      stops exactly behind it. */
  lemma ParseScalarOf(s: Scalar, rest: bytes)
    requires Representable(s) && |ScalarBytes(s)| <= U32_MAX
    ensures ParseScalarAt(TagOf(s), ScalarBytes(s) + rest) == Ok((s, rest))
    ensures ParseScalar(TagOf(s), ScalarBytes(s) + rest) == Ok((s, |ScalarBytes(s)|))
  {
    hide LE32, LE64, U32, I32, I64;
    if Textual(s) {
      ParseTextualOf(s, rest);
    } else if Numeric(s) {
      ParseNumericOf(s, rest);
    } else if s.Binary? {
      ParseBinaryOf(s.subtype, s.payload, rest, TAG_BINARY);
    } else {
      ParseOpaqueOf(s, rest);
    }
  }

  // ------------------------------------------------------------ exactness

  lemma ParseStringExact(r: bytes, tag: byte)
    requires ParseString(r, tag).Ok?
    ensures var (s, r') := ParseString(r, tag).value;
            r == StringBytes(s) + r'
  {
    ReadU32Exact(r);
  }

  lemma ParsePayloadExact(subtype: BinarySubtype, len: u32, r: bytes, tag: byte)
    requires ParsePayload(subtype, len, r, tag).Ok?
    ensures var (payload, r') := ParsePayload(subtype, len, r, tag).value;
            len == |PayloadBytes(subtype, payload)| && r == PayloadBytes(subtype, payload) + r'
  {
    hide LE32, U32;
    if subtype == BinaryOld {
      ReadU32Exact(r);
    }
  }

  lemma ParseBinaryExact(r: bytes, tag: byte)
    requires ParseBinary(r, tag).Ok?
    ensures var (s, r') := ParseBinary(r, tag).value;
            s.Binary? && Representable(s) && r == ScalarBytes(s) + r'
  {
    hide LE32, U32, ParsePayload, PayloadBytes;
    var (len, r1) := ReadU32(r).value;
    var (code, r2) := ReadU8(r1).value;
    var (s, rest) := ParseBinary(r, tag).value;
    ReadU32Exact(r);
    ParsePayloadExact(s.subtype, len, r2, tag);
    assert r == LE32(len) + ([code] + r2);
    assert SubtypeByte(s.subtype) == code;
  }

  lemma ParseTextualExact(tag: byte, r: bytes)
    requires ParseScalarAt(tag, r).Ok? && Textual(ParseScalarAt(tag, r).value.0)
    ensures var (s, r') := ParseScalarAt(tag, r).value;
            Representable(s) && TagOf(s) == tag && r == ScalarBytes(s) + r'
  {
    hide LE32, U32, ParseString, StringBytes, ValidUtf8, FindNul;
    var (s, rest) := ParseScalarAt(tag, r).value;
    if tag == TAG_REGEX {
      ReadCStringExact(r);
      ReadCStringExact(ReadCString(r).value.1);
    } else if tag == TAG_DB_POINTER {
      ParseStringExact(r, tag);
      assert r == StringBytes(s.namespace) + (s.target + rest);
    } else {
      assert tag == TAG_STRING || tag == TAG_JAVASCRIPT || tag == TAG_SYMBOL;
      ParseStringExact(r, tag);
    }
  }

  lemma ParseNumericExact(tag: byte, r: bytes)
    requires ParseScalarAt(tag, r).Ok? && Numeric(ParseScalarAt(tag, r).value.0)
    ensures var (s, r') := ParseScalarAt(tag, r).value;
            TagOf(s) == tag && r == ScalarBytes(s) + r'
  {
    hide LE32, LE64, U32, I32, I64;
    if tag == TAG_DATE_TIME || tag == TAG_INT64 {
      ReadI64Exact(r);
    } else if tag == TAG_INT32 {
      ReadI32Exact(r);
    } else {
      ReadU32Exact(r);
      ReadU32Exact(ReadU32(r).value.1);
    }
  }

  /** A parsed scalar is representable and its encoding is exactly the bytes
      consumed. */
  lemma ParseScalarExact(tag: byte, r: bytes)
    requires ParseScalarAt(tag, r).Ok?
    ensures var (s, r') := ParseScalarAt(tag, r).value;
            Representable(s) && TagOf(s) == tag && r == ScalarBytes(s) + r'
  {
    var (s, r') := ParseScalarAt(tag, r).value;
    if Textual(s) {
      ParseTextualExact(tag, r);
    } else if Numeric(s) {
      ParseNumericExact(tag, r);
    } else if tag == TAG_BINARY {
      ParseBinaryExact(r, tag);
    }
  }
}
