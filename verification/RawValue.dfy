/** Raw values: what `parse_value` reads back and what it took
    (wirebson/src/decode.rs). */
module RawValue {
  import opened Bytes
  import opened Text
  import opened ScalarCodec
  import opened BsonModel
  import opened Decode

  function RawTag(raw: RawBson): byte {
    match raw
    case RawScalar(s) => TagOf(s)
    case RawDocument(_) => TAG_DOCUMENT
    case RawArray(_) => TAG_ARRAY
    case RawScope(_, _) => TAG_JAVASCRIPT_SCOPE
  }

  /** The wire bytes of a raw value. */
  function RawBytes(raw: RawBson): bytes {
    match raw
    case RawScalar(s) => ScalarBytes(s)
    case RawDocument(b) => b
    case RawArray(b) => b
    case RawScope(code, scope) => LE32(4 + |StringBytes(code)| + |scope|) + StringBytes(code) + scope
  }

  predicate ValidRaw(raw: RawBson) {
    match raw
    case RawScalar(s) => Representable(s)
    case RawDocument(b) => ValidDocument(b)
    case RawArray(b) => ValidDocument(b)
    case RawScope(_, scope) => ValidDocument(scope)
  }

  /** The raw value an eager value is written as. */
  function RawOf(v: Bson): RawBson {
    match v
    case ScalarValue(s) => RawScalar(s)
    case Document(_) => RawDocument(ValueBytes(v))
    case Array(_) => RawArray(ValueBytes(v))
    case JavaScriptScope(code, scope) => RawScope(code, scope)
  }

  lemma FramedIsValid(elements: bytes)
    requires |Framed(elements)| <= U32_MAX
    ensures ValidDocument(Framed(elements))
  {
    LE32RoundTrip(|elements| + 5, elements + [0]);
    assert Framed(elements) == LE32(|elements| + 5) + (elements + [0]);
  }

  lemma RawOfIsValid(v: Bson)
    requires FaithfulValue(v) && |ValueBytes(v)| <= U32_MAX
    ensures ValidRaw(RawOf(v)) && RawTag(RawOf(v)) == Tag(v) && RawBytes(RawOf(v)) == ValueBytes(v)
  {
    hide LE32, U32, Framed;
    match v
    case Document(fs) => FramedIsValid(FieldsBytes(fs));
    case Array(vs) => FramedIsValid(FieldsBytes(Indexed(vs, 0)));
    case _ =>
  }

  lemma ValidPrefix(b: bytes, rest: bytes)
    requires |b| >= 4
    ensures U32(b + rest) == U32(b)
  {
  }

  lemma ReadStrOf(s: Str, rest: bytes, abs: nat)
    requires |s| + 1 <= U32_MAX
    ensures ReadStr(StringBytes(s) + rest, abs) == Ok((s, rest))
  {
    hide ReadStr, ParseString;
    ReadStrAgrees(StringBytes(s) + rest, abs, TAG_STRING);
    ParseStringOf(s, rest, TAG_STRING);
  }

  lemma ParseScopeOf(code: Str, scope: bytes, rest: bytes, abs: nat)
    requires ValidDocument(scope) && |RawBytes(RawScope(code, scope))| <= U32_MAX
    ensures ParseScope(RawBytes(RawScope(code, scope)) + rest, abs) == Ok((RawScope(code, scope), rest))
  {
    hide LE32, U32, ReadStr, StringBytes;
    assert |StringBytes(code)| == |code| + 5 by {
      StringBytesLength(code);
    }
    var total := 4 + |StringBytes(code)| + |scope|;
    var b := RawBytes(RawScope(code, scope)) + rest;
    var tail := StringBytes(code) + (scope + rest);
    assert b == LE32(total) + tail;
    LE32RoundTrip(total, tail);
    assert b[4..] == tail;
    ReadStrOf(code, scope + rest, abs + 4);
    ValidPrefix(scope, rest);
    var cur := scope + rest;
    assert cur[..|scope|] == scope && cur[|scope|..] == rest;
  }

  lemma StringBytesLength(s: bytes)
    ensures |StringBytes(s)| == |s| + 5
  {
  }

  lemma ParseDocumentOf(tag: byte, b: bytes, rest: bytes, abs: nat)
    requires ValidDocument(b) && (tag == TAG_DOCUMENT || tag == TAG_ARRAY)
    ensures ParseValue(tag, b + rest, abs)
         == Ok((if tag == TAG_DOCUMENT then RawDocument(b) else RawArray(b), rest))
  {
    hide U32;
    ValidPrefix(b, rest);
    assert (b + rest)[..|b|] == b && (b + rest)[|b|..] == rest;
  }

  /** A written value followed by anything is read back, and exactly it. */
  lemma ParseValueOf(raw: RawBson, rest: bytes, abs: nat)
    requires ValidRaw(raw) && |RawBytes(raw)| <= U32_MAX
    ensures ParseValue(RawTag(raw), RawBytes(raw) + rest, abs) == Ok((raw, rest))
  {
    hide LE32, U32, ParseScope, BorrowScalar, ScalarBytes;
    match raw
    case RawScalar(s) =>
      ParseScalarOf(s, rest);
      ScalarParsersAgree(TagOf(s), ScalarBytes(s) + rest, abs);
    case RawDocument(b) => ParseDocumentOf(TAG_DOCUMENT, b, rest, abs);
    case RawArray(b) => ParseDocumentOf(TAG_ARRAY, b, rest, abs);
    case RawScope(code, scope) => ParseScopeOf(code, scope, rest, abs);
  }

  lemma ParseScopeExact(rest: bytes, abs: nat)
    requires ParseScope(rest, abs).Ok?
    ensures var (raw, rest') := ParseScope(rest, abs).value;
            raw.RawScope? && ValidRaw(raw) && rest == RawBytes(raw) + rest'
  {
    hide LE32, U32, ReadStr, ParseString, StringBytes;
    var (raw, rest') := ParseScope(rest, abs).value;
    var (code, cur) := ReadStr(rest[4..], abs + 4).value;
    ReadStrAgrees(rest[4..], abs + 4, TAG_STRING);
    ParseStringExact(rest[4..], TAG_STRING);
    LE32OfU32(rest);
    assert cur == raw.scope + rest';
    assert rest == rest[..4] + (StringBytes(code) + (raw.scope + rest'));
  }

  /** A parsed value is valid and its wire image is exactly what was consumed. */
  lemma ParseValueExact(tag: byte, rest: bytes, abs: nat)
    requires ParseValue(tag, rest, abs).Ok?
    ensures var (raw, rest') := ParseValue(tag, rest, abs).value;
            ValidRaw(raw) && RawTag(raw) == tag && rest == RawBytes(raw) + rest'
  {
    hide LE32, U32, ParseScope, BorrowScalar, ScalarBytes;
    if tag == TAG_JAVASCRIPT_SCOPE {
      ParseScopeExact(rest, abs);
    } else if tag != TAG_DOCUMENT && tag != TAG_ARRAY {
      ScalarParsersAgree(tag, rest, abs);
      ParseScalarExact(tag, rest);
    }
  }
}
