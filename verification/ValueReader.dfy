/** `parse_value` and its readers on a moving cursor (wirebson/src/decode.rs). */
module ValueReader {
  import opened Bytes
  import opened Text
  import opened Io
  import opened ScalarCodec
  import opened Decode
  import opened SliceReader
  import opened ScalarReader

  function Mapped(e: ReadError): Error {
    ShortDocument(e.needed, e.got)
  }

  method TakeStr(cursor: SliceCursor, abs: nat) returns (r: Result<Str, Error>)
    modifies cursor
    ensures Advanced(r, ReadStr(old(cursor.rest), abs), cursor.rest)
  {
    hide ValidUtf8, ReadU32, ReadBytes, ReadU8;
    var len := cursor.TakeU32();
    if len.Err? { return Err(Mapped(len.error)); }
    if len.value < 1 {
      return Err(InvalidInput(abs, "zero-length string"));
    }
    var text := cursor.TakeBytes(len.value - 1);
    if text.Err? { return Err(Mapped(text.error)); }
    var nul := cursor.TakeU8();
    if nul.Err? { return Err(Mapped(nul.error)); }
    if nul.value != 0 {
      return Err(InvalidInput(abs, "string not NUL-terminated"));
    }
    if !ValidUtf8(text.value) {
      return Err(Utf8);
    }
    return Ok(text.value);
  }

  method TakeCStr(cursor: SliceCursor) returns (r: Result<Str, Error>)
    modifies cursor
    ensures Advanced(r, ReadCStr(old(cursor.rest)), cursor.rest)
  {
    hide ValidUtf8, ReadCString;
    var text := cursor.TakeCString();
    if text.Err? { return Err(Mapped(text.error)); }
    if !ValidUtf8(text.value) {
      return Err(Utf8);
    }
    return Ok(text.value);
  }

  method TakeBinaryValue(cursor: SliceCursor, abs: nat) returns (r: Result<Scalar, Error>)
    modifies cursor
    ensures Advanced(r, ReadBinary(old(cursor.rest), abs), cursor.rest)
  {
    hide ReadU32, ReadBytes, ReadU8, SubtypeOf;
    var len := cursor.TakeU32();
    if len.Err? { return Err(Mapped(len.error)); }
    var code := cursor.TakeU8();
    if code.Err? { return Err(Mapped(code.error)); }
    var subtype := SubtypeOf(code.value);
    if subtype.Err? { return Err(ScalarFailure(subtype.error)); }
    var payloadLen := len.value;
    if subtype.value == BinaryOld {
      var inner := cursor.TakeU32();
      if inner.Err? { return Err(Mapped(inner.error)); }
      if inner.value as int + 4 != len.value {
        return Err(InvalidInput(abs, "old binary inner length mismatch"));
      }
      payloadLen := inner.value;
    }
    var payload := cursor.TakeBytes(payloadLen);
    if payload.Err? { return Err(Mapped(payload.error)); }
    return Ok(Binary(subtype.value, payload.value));
  }

  method TakeFixedValue(cursor: SliceCursor, tag: byte, abs: nat) returns (r: Result<Scalar, Error>)
    requires FixedWidth(tag)
    modifies cursor
    ensures Advanced(r, BorrowScalar(tag, old(cursor.rest), abs), cursor.rest)
  {
    hide ReadI32, ReadI64, ReadU32, ReadU8, ReadStr, ReadBinary, ReadCStr;
    if tag == TAG_DOUBLE {
      var b := cursor.TakeBytes(8);
      return if b.Ok? then Ok(Double(b.value)) else Err(Mapped(b.error));
    } else if tag == TAG_OBJECT_ID {
      var b := cursor.TakeBytes(12);
      return if b.Ok? then Ok(ObjectId(b.value)) else Err(Mapped(b.error));
    } else if tag == TAG_DATE_TIME {
      var v := cursor.TakeI64();
      return if v.Ok? then Ok(DateTime(v.value)) else Err(Mapped(v.error));
    } else if tag == TAG_INT32 {
      var v := cursor.TakeI32();
      return if v.Ok? then Ok(Int32(v.value)) else Err(Mapped(v.error));
    } else if tag == TAG_TIMESTAMP {
      var increment := cursor.TakeU32();
      if increment.Err? { return Err(Mapped(increment.error)); }
      var seconds := cursor.TakeU32();
      return if seconds.Ok? then Ok(Timestamp(seconds.value, increment.value)) else Err(Mapped(seconds.error));
    } else if tag == TAG_INT64 {
      var v := cursor.TakeI64();
      return if v.Ok? then Ok(Int64(v.value)) else Err(Mapped(v.error));
    } else {
      var b := cursor.TakeBytes(16);
      return if b.Ok? then Ok(Decimal128(b.value)) else Err(Mapped(b.error));
    }
  }

  method TakeScalarValue(cursor: SliceCursor, tag: byte, abs: nat) returns (r: Result<Scalar, Error>)
    modifies cursor
    ensures Advanced(r, BorrowScalar(tag, old(cursor.rest), abs), cursor.rest)
  {
    hide ReadI32, ReadI64, ReadU32, ReadU8, ReadStr, ReadBinary, ReadCStr;
    if FixedWidth(tag) {
      r := TakeFixedValue(cursor, tag, abs);
    } else if tag == TAG_STRING || tag == TAG_JAVASCRIPT || tag == TAG_SYMBOL {
      var t := TakeStr(cursor, abs);
      if t.Err? { return Err(t.error); }
      return Ok(if tag == TAG_STRING then String(t.value)
                else if tag == TAG_SYMBOL then Symbol(t.value)
                else JavaScript(t.value));
    } else if tag == TAG_BINARY {
      r := TakeBinaryValue(cursor, abs);
    } else if tag == TAG_BOOL {
      var b := cursor.TakeU8();
      if b.Err? { return Err(Mapped(b.error)); }
      if b.value > 1 {
        return Err(InvalidInput(abs, "invalid bool byte"));
      }
      return Ok(Bool(b.value == 1));
    } else if tag == TAG_REGEX {
      var pattern := TakeCStr(cursor);
      if pattern.Err? { return Err(pattern.error); }
      var options := TakeCStr(cursor);
      if options.Err? { return Err(options.error); }
      return Ok(Regex(pattern.value, options.value));
    } else if tag == TAG_DB_POINTER {
      var namespace := TakeStr(cursor, abs);
      if namespace.Err? { return Err(namespace.error); }
      var id := cursor.TakeBytes(12);
      return if id.Ok? then Ok(DbPointer(namespace.value, id.value)) else Err(Mapped(id.error));
    } else if tag == TAG_UNDEFINED {
      return Ok(Undefined);
    } else if tag == TAG_NULL {
      return Ok(Null);
    } else if tag == TAG_MIN_KEY {
      return Ok(MinKey);
    } else if tag == TAG_MAX_KEY {
      return Ok(MaxKey);
    } else {
      return Err(InvalidInput(abs, "unknown element type"));
    }
  }

  /** A value and how many bytes it took, from a value and what is left. */
  function Consumed<T>(r: Borrowed<T>, rest: bytes): Result<(T, int), Error> {
    if r.Ok? then Ok((r.value.0, |rest| - |r.value.1|)) else Err(r.error)
  }

  method ReadScope(rest: bytes, abs: nat) returns (r: Result<(RawBson, int), Error>)
    ensures r == Consumed(ParseScope(rest, abs), rest)
  {
    hide U32, FromBytes, ValidUtf8;
    if |rest| < 4 {
      return Err(ShortDocument(4, |rest|));
    }
    var total := U32(rest);
    var cursor := new SliceCursor(rest[4..]);
    var code := TakeStr(cursor, abs + 4);
    if code.Err? {
      return Err(code.error);
    }
    var scopeOff := |rest| - |cursor.rest|;
    if |rest| < scopeOff + 4 {
      return Err(ShortDocument(scopeOff + 4, |rest|));
    }
    var l := U32(cursor.rest);
    if l < MIN_DOC_LEN {
      return Err(InvalidInput(abs + scopeOff, "scope length below minimum"));
    }
    if |rest| < scopeOff + l {
      return Err(ShortDocument(scopeOff + l, |rest|));
    }
    var scope := FromBytes(cursor.rest[..l]);
    if scope.Err? {
      return Err(scope.error);
    }
    var actual := scopeOff + l;
    if total != actual {
      return Err(LengthMismatch(total, actual));
    }
    return Ok((RawScope(code.value, scope.value), actual));
  }

  /** `parse_value`. */
  method ReadValue(tag: byte, rest: bytes, abs: nat) returns (r: Result<(RawBson, int), Error>)
    ensures r == Consumed(ParseValue(tag, rest, abs), rest)
  {
    hide ParseScope, BorrowScalar, DocLen, FromBytes;
    if tag == TAG_DOCUMENT || tag == TAG_ARRAY {
      var l := DocLen(rest, abs);
      if l.Err? {
        return Err(l.error);
      }
      var child := FromBytes(rest[..l.value]);
      if child.Err? {
        return Err(child.error);
      }
      return Ok((if tag == TAG_DOCUMENT then RawDocument(child.value) else RawArray(child.value), l.value));
    }
    if tag == TAG_JAVASCRIPT_SCOPE {
      r := ReadScope(rest, abs);
      return;
    }
    var cursor := new SliceCursor(rest);
    var s := TakeScalarValue(cursor, tag, abs);
    if s.Err? {
      return Err(s.error);
    }
    return Ok((RawScalar(s.value), |rest| - |cursor.rest|));
  }
}
