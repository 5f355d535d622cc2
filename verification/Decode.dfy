/** Document scanning and decoding (wirebson/src/decode.rs, wirebson/src/raw.rs,
    wirebson/src/raw_value.rs). */
module Decode {
  import opened Bytes
  import opened Text
  import opened Io
  import opened ScalarCodec
  import opened BsonModel

  datatype Error =
    | ShortDocument(needed: nat, got: nat)
    | InvalidInput(offset: nat, reason: string)
    | LengthMismatch(declared: nat, actual: nat)
    | Utf8
    | NestedTooDeep(max: nat)
    | ScalarFailure(cause: ScalarError)

  /** A raw field value: composites are the bytes they occupy. */
  datatype RawBson =
    | RawScalar(scalar: Scalar)
    | RawDocument(bytes: bytes)
    | RawArray(bytes: bytes)
    | RawScope(code: Str, scope: bytes)

  datatype Mode = Shallow | Deep

  /** `RawDocument::from_bytes`. */
  function FromBytes(b: bytes): (r: Result<bytes, Error>)
    ensures r.Ok? <==> ValidDocument(b)
    ensures r.Ok? <==> |b| >= 5 && U32(b) == |b| && b[|b| - 1] == 0
    ensures r.Ok? ==> r.value == b
  {
    if |b| < MIN_DOC_LEN then Err(ShortDocument(MIN_DOC_LEN, |b|))
    else if U32(b) < MIN_DOC_LEN then Err(InvalidInput(0, "declared length is below the minimum"))
    else if U32(b) != |b| then Err(LengthMismatch(U32(b), |b|))
    else if b[|b| - 1] != 0 then Err(InvalidInput(|b| - 1, "missing trailing NUL"))
    else Ok(b)
  }

  // ------------------------------------------------------------ borrowed scalars

  function MapRead<T>(r: Result<T, ReadError>): Result<T, Error> {
    match r
    case Ok(v) => Ok(v)
    case Err(ShortInput(needed, got)) => Err(ShortDocument(needed, got))
  }

  type Borrowed<+T> = Result<(T, bytes), Error>

  function ReadStr(r: bytes, abs: nat): Borrowed<Str> {
    var (len, r1) :- MapRead(ReadU32(r));
    if len < 1 then Err(InvalidInput(abs, "zero-length string")) else
    var (text, r2) :- MapRead(ReadBytes(r1, len - 1));
    var (nul, r3) :- MapRead(ReadU8(r2));
    if nul != 0 then Err(InvalidInput(abs, "string not NUL-terminated"))
    else if !ValidUtf8(text) then Err(Utf8)
    else Ok((text, r3))
  }

  function ReadCStr(r: bytes): Borrowed<Str> {
    var (text, r1) :- MapRead(ReadCString(r));
    if !ValidUtf8(text) then Err(Utf8) else Ok((text, r1))
  }

  function ReadBinary(r: bytes, abs: nat): Borrowed<Scalar> {
    var (len, r1) :- MapRead(ReadU32(r));
    var (code, r2) :- MapRead(ReadU8(r1));
    match SubtypeOf(code)
    case Err(e) => Err(ScalarFailure(e))
    case Ok(BinaryOld) =>
      var (inner, r3) :- MapRead(ReadU32(r2));
      if inner as int + 4 != len then Err(InvalidInput(abs, "old binary inner length mismatch")) else
      var (payload, r4) :- MapRead(ReadBytes(r3, inner));
      Ok((Binary(BinaryOld, payload), r4))
    case Ok(subtype) =>
      var (payload, r3) :- MapRead(ReadBytes(r2, len));
      Ok((Binary(subtype, payload), r3))
  }

  /** The non-composite cases of `parse_value`. */
  function BorrowScalar(tag: byte, r: bytes, abs: nat): Borrowed<Scalar> {
    if tag == TAG_DOUBLE then
      var (b, r1) :- MapRead(ReadBytes(r, 8));
      Ok((Double(b), r1))
    else if tag == TAG_STRING then
      var (t, r1) :- ReadStr(r, abs);
      Ok((String(t), r1))
    else if tag == TAG_BINARY then
      ReadBinary(r, abs)
    else if tag == TAG_UNDEFINED then
      Ok((Undefined, r))
    else if tag == TAG_OBJECT_ID then
      var (b, r1) :- MapRead(ReadBytes(r, 12));
      Ok((ObjectId(b), r1))
    else if tag == TAG_BOOL then
      var (b, r1) :- MapRead(ReadU8(r));
      if b == 0 then Ok((Bool(false), r1))
      else if b == 1 then Ok((Bool(true), r1))
      else Err(InvalidInput(abs, "invalid bool byte"))
    else if tag == TAG_DATE_TIME then
      var (v, r1) :- MapRead(ReadI64(r));
      Ok((DateTime(v), r1))
    else if tag == TAG_NULL then
      Ok((Null, r))
    else if tag == TAG_REGEX then
      var (pattern, r1) :- ReadCStr(r);
      var (options, r2) :- ReadCStr(r1);
      Ok((Regex(pattern, options), r2))
    else if tag == TAG_DB_POINTER then
      var (namespace, r1) :- ReadStr(r, abs);
      var (b, r2) :- MapRead(ReadBytes(r1, 12));
      Ok((DbPointer(namespace, b), r2))
    else if tag == TAG_JAVASCRIPT then
      var (t, r1) :- ReadStr(r, abs);
      Ok((JavaScript(t), r1))
    else if tag == TAG_SYMBOL then
      var (t, r1) :- ReadStr(r, abs);
      Ok((Symbol(t), r1))
    else if tag == TAG_INT32 then
      var (v, r1) :- MapRead(ReadI32(r));
      Ok((Int32(v), r1))
    else if tag == TAG_TIMESTAMP then
      var (increment, r1) :- MapRead(ReadU32(r));
      var (seconds, r2) :- MapRead(ReadU32(r1));
      Ok((Timestamp(seconds, increment), r2))
    else if tag == TAG_INT64 then
      var (v, r1) :- MapRead(ReadI64(r));
      Ok((Int64(v), r1))
    else if tag == TAG_DECIMAL128 then
      var (b, r1) :- MapRead(ReadBytes(r, 16));
      Ok((Decimal128(b), r1))
    else if tag == TAG_MIN_KEY then
      Ok((MinKey, r))
    else if tag == TAG_MAX_KEY then
      Ok((MaxKey, r))
    else
      Err(InvalidInput(abs, "unknown element type"))
  }

  // ------------------------------------------------------------ values

  function DocLen(rest: bytes, abs: nat): (r: Result<nat, Error>)
    ensures r.Ok? ==> MIN_DOC_LEN <= r.value <= |rest|
  {
    if |rest| < 4 then Err(ShortDocument(4, |rest|))
    else if U32(rest) < MIN_DOC_LEN then Err(InvalidInput(abs, "composite length below minimum"))
    else if |rest| < U32(rest) then Err(ShortDocument(U32(rest), |rest|))
    else Ok(U32(rest))
  }

  function ParseScope(rest: bytes, abs: nat): (r: Borrowed<RawBson>)
    ensures r.Ok? ==> r.value.0.RawScope? && |r.value.1| + 4 <= |rest|
  {
    if |rest| < 4 then Err(ShortDocument(4, |rest|)) else
    var total := U32(rest);
    var (code, cur) :- ReadStr(rest[4..], abs + 4);
    var scopeOff := |rest| - |cur|;
    if |cur| < 4 then Err(ShortDocument(scopeOff + 4, |rest|)) else
    var l := U32(cur);
    if l < MIN_DOC_LEN then Err(InvalidInput(abs + scopeOff, "scope length below minimum"))
    else if |cur| < l then Err(ShortDocument(scopeOff + l, |rest|)) else
    var scope :- FromBytes(cur[..l]);
    if total != scopeOff + l then Err(LengthMismatch(total, scopeOff + l))
    else Ok((RawScope(code, scope), cur[l..]))
  }

  /** The value at the front of `rest` and what is left behind it. `abs` is the
      offset of the value in its document, used only in errors. */
  function ParseValue(tag: byte, rest: bytes, abs: nat): Borrowed<RawBson> {
    if tag == TAG_DOCUMENT || tag == TAG_ARRAY then
      var l :- DocLen(rest, abs);
      var child :- FromBytes(rest[..l]);
      Ok((if tag == TAG_DOCUMENT then RawDocument(child) else RawArray(child), rest[l..]))
    else if tag == TAG_JAVASCRIPT_SCOPE then
      ParseScope(rest, abs)
    else
      var (s, r) :- BorrowScalar(tag, rest, abs);
      Ok((RawScalar(s), r))
  }

  // ------------------------------------------------------------ agreement

  lemma ReadStrAgrees(r: bytes, abs: nat, tag: byte)
    ensures ReadStr(r, abs).Ok? <==> ParseString(r, tag).Ok?
    ensures ReadStr(r, abs).Ok? ==> ReadStr(r, abs).value == ParseString(r, tag).value
  {
    hide U32, ValidUtf8;
  }

  lemma ReadBinaryAgrees(r: bytes, abs: nat, tag: byte)
    ensures ReadBinary(r, abs).Ok? <==> ParseBinary(r, tag).Ok?
    ensures ReadBinary(r, abs).Ok? ==> ReadBinary(r, abs).value == ParseBinary(r, tag).value
  {
    hide U32;
  }

  /** On every non-composite tag and every input the borrowing parser and the
      owning parser accept the same inputs, with the same value and the same
      rest. */
  lemma ScalarParsersAgree(tag: byte, r: bytes, abs: nat)
    requires !CompositeTag(tag)
    ensures BorrowScalar(tag, r, abs).Ok? <==> ParseScalarAt(tag, r).Ok?
    ensures BorrowScalar(tag, r, abs).Ok? ==> BorrowScalar(tag, r, abs).value == ParseScalarAt(tag, r).value
  {
    hide ReadStr, ParseString, ReadBinary, ParseBinary, U32, I32, I64, ValidUtf8, FindNul;
    ReadStrAgrees(r, abs, tag);
    ReadBinaryAgrees(r, abs, tag);
  }
}
