/** `parse_scalar` as the cursor loop it is: each reader advances one shared
    cursor, and what is left decides the length consumed
    (mongo_common/src/bson/scalar.rs). */
module ScalarReader {
  import opened Bytes
  import opened Text
  import opened Io
  import opened ScalarCodec
  import opened SliceReader

  /** The result and the position the cursor is left at, on success, are those
      of `spec`. */
  predicate Advanced<T(==), E(==)>(r: Result<T, E>, spec: Result<(T, bytes), E>, after: bytes) {
    match spec
    case Ok((v, rest)) => r == Ok(v) && after == rest
    case Err(e) => r == Err(e)
  }

  function Short(e: ReadError): ScalarError {
    ShortScalar(e.needed, e.got)
  }

  method TakeString(cursor: SliceCursor, tag: byte) returns (r: Result<Str, ScalarError>)
    modifies cursor
    ensures Advanced(r, ParseString(old(cursor.rest), tag), cursor.rest)
  {
    hide ValidUtf8, ReadU32, ReadBytes, ReadU8;
    var len := cursor.TakeU32();
    if len.Err? { return Err(Short(len.error)); }
    if len.value == 0 {
      return Err(Invalid(tag, "zero-length string"));
    }
    var text := cursor.TakeBytes(len.value - 1);
    if text.Err? { return Err(Short(text.error)); }
    var nul := cursor.TakeU8();
    if nul.Err? { return Err(Short(nul.error)); }
    if nul.value != 0 {
      return Err(Invalid(tag, "string not NUL-terminated"));
    }
    if !ValidUtf8(text.value) {
      return Err(Utf8Scalar);
    }
    return Ok(text.value);
  }

  method TakeCStringStr(cursor: SliceCursor) returns (r: Result<Str, ScalarError>)
    modifies cursor
    ensures Advanced(r, ReadCStringStr(old(cursor.rest)), cursor.rest)
  {
    hide ValidUtf8, ReadCString;
    var text := cursor.TakeCString();
    if text.Err? { return Err(Short(text.error)); }
    if !ValidUtf8(text.value) {
      return Err(Utf8Scalar);
    }
    return Ok(text.value);
  }

  method TakeBinary(cursor: SliceCursor, tag: byte) returns (r: Result<Scalar, ScalarError>)
    modifies cursor
    ensures Advanced(r, ParseBinary(old(cursor.rest), tag), cursor.rest)
  {
    hide ReadU32, ReadBytes, ReadU8, SubtypeOf;
    var len := cursor.TakeU32();
    if len.Err? { return Err(Short(len.error)); }
    var code := cursor.TakeU8();
    if code.Err? { return Err(Short(code.error)); }
    var subtype := SubtypeOf(code.value);
    if subtype.Err? { return Err(subtype.error); }
    var payloadLen := len.value;
    if subtype.value == BinaryOld {
      var inner := cursor.TakeU32();
      if inner.Err? { return Err(Short(inner.error)); }
      if inner.value as int + 4 != len.value {
        return Err(Invalid(tag, "old binary inner length mismatch"));
      }
      payloadLen := inner.value;
    }
    var payload := cursor.TakeBytes(payloadLen);
    if payload.Err? { return Err(Short(payload.error)); }
    return Ok(Binary(subtype.value, payload.value));
  }

  /** The numeric and fixed-width tags. */
  method TakeFixed(cursor: SliceCursor, tag: byte) returns (r: Result<Scalar, ScalarError>)
    requires FixedWidth(tag)
    modifies cursor
    ensures Advanced(r, ParseScalarAt(tag, old(cursor.rest)), cursor.rest)
  {
    hide ReadI32, ReadI64, ReadU32, ReadU8, ParseString, ParseBinary, ReadCStringStr;
    if tag == TAG_DOUBLE {
      var b := cursor.TakeBytes(8);
      return if b.Ok? then Ok(Double(b.value)) else Err(Short(b.error));
    } else if tag == TAG_OBJECT_ID {
      var b := cursor.TakeBytes(12);
      return if b.Ok? then Ok(ObjectId(b.value)) else Err(Short(b.error));
    } else if tag == TAG_DATE_TIME {
      var v := cursor.TakeI64();
      return if v.Ok? then Ok(DateTime(v.value)) else Err(Short(v.error));
    } else if tag == TAG_INT32 {
      var v := cursor.TakeI32();
      return if v.Ok? then Ok(Int32(v.value)) else Err(Short(v.error));
    } else if tag == TAG_TIMESTAMP {
      var increment := cursor.TakeU32();
      if increment.Err? { return Err(Short(increment.error)); }
      var seconds := cursor.TakeU32();
      return if seconds.Ok? then Ok(Timestamp(seconds.value, increment.value)) else Err(Short(seconds.error));
    } else if tag == TAG_INT64 {
      var v := cursor.TakeI64();
      return if v.Ok? then Ok(Int64(v.value)) else Err(Short(v.error));
    } else {
      var b := cursor.TakeBytes(16);
      return if b.Ok? then Ok(Decimal128(b.value)) else Err(Short(b.error));
    }
  }

  predicate FixedWidth(tag: byte) {
    tag == TAG_DOUBLE || tag == TAG_OBJECT_ID || tag == TAG_DATE_TIME || tag == TAG_INT32 || tag == TAG_TIMESTAMP
    || tag == TAG_INT64 || tag == TAG_DECIMAL128
  }

  method TakeScalar(cursor: SliceCursor, tag: byte) returns (r: Result<Scalar, ScalarError>)
    modifies cursor
    ensures Advanced(r, ParseScalarAt(tag, old(cursor.rest)), cursor.rest)
  {
    hide ReadI32, ReadI64, ReadU32, ReadU8, ParseString, ParseBinary, ReadCStringStr;
    if FixedWidth(tag) {
      r := TakeFixed(cursor, tag);
    } else if tag == TAG_STRING || tag == TAG_JAVASCRIPT || tag == TAG_SYMBOL {
      var t := TakeString(cursor, tag);
      if t.Err? { return Err(t.error); }
      return Ok(if tag == TAG_STRING then String(t.value)
                else if tag == TAG_SYMBOL then Symbol(t.value)
                else JavaScript(t.value));
    } else if tag == TAG_BINARY {
      r := TakeBinary(cursor, tag);
    } else if tag == TAG_BOOL {
      var b := cursor.TakeU8();
      if b.Err? { return Err(Short(b.error)); }
      if b.value > 1 {
        return Err(Invalid(tag, "invalid bool byte"));
      }
      return Ok(Bool(b.value == 1));
    } else if tag == TAG_REGEX {
      var pattern := TakeCStringStr(cursor);
      if pattern.Err? { return Err(pattern.error); }
      var options := TakeCStringStr(cursor);
      if options.Err? { return Err(options.error); }
      return Ok(Regex(pattern.value, options.value));
    } else if tag == TAG_DB_POINTER {
      var namespace := TakeString(cursor, tag);
      if namespace.Err? { return Err(namespace.error); }
      var id := cursor.TakeBytes(12);
      return if id.Ok? then Ok(DbPointer(namespace.value, id.value)) else Err(Short(id.error));
    } else if tag == TAG_UNDEFINED {
      return Ok(Undefined);
    } else if tag == TAG_NULL {
      return Ok(Null);
    } else if tag == TAG_MIN_KEY {
      return Ok(MinKey);
    } else if tag == TAG_MAX_KEY {
      return Ok(MaxKey);
    } else if CompositeTag(tag) {
      return Err(Invalid(tag, "composite type; handled by wirebson"));
    } else {
      return Err(Invalid(tag, "unknown element type"));
    }
  }

  /** `parse_scalar`: the value and the bytes it took. */
  method ReadScalar(tag: byte, input: bytes) returns (r: Result<(Scalar, int), ScalarError>)
    ensures r == ParseScalar(tag, input)
  {
    hide ParseScalarAt;
    var cursor := new SliceCursor(input);
    var s := TakeScalar(cursor, tag);
    if s.Err? {
      return Err(s.error);
    }
    return Ok((s.value, |input| - |cursor.rest|));
  }
}
