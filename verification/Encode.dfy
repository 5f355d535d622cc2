/** The encoder: placeholder, fields, terminator, patched length
    (wirebson/src/encode.rs, mongo_common/src/bson/scalar.rs). */
module Encode {
  import opened Bytes
  import opened Text
  import opened Buffer
  import opened ScalarCodec
  import opened BsonModel
  import opened Decode
  import opened RawValue
  import opened Faults

  // ------------------------------------------------------------ scalars

  method PutString(s: Str, out: ByteBuffer) returns (ok: bool)
    modifies out
    ensures ok <==> |s| + 1 <= I32_MAX
    ensures out.data == if ok then old(out.data) + StringBytes(s) else old(out.data)
  {
    hide LE32;
    if |s| + 1 > I32_MAX {
      return false;
    }
    out.PutBytes(LE32(|s| + 1));
    out.PutBytes(s);
    out.PutU8(0);
    return true;
  }

  method PutBinary(subtype: BinarySubtype, payload: bytes, out: ByteBuffer) returns (ok: bool)
    modifies out
    ensures ok <==> Encodes(Binary(subtype, payload))
    ensures out.data == if ok then old(out.data) + BinaryBytes(subtype, payload) else old(out.data)
  {
    hide LE32;
    var extra := if subtype == BinaryOld then 4 else 0;
    if |payload| + extra > I32_MAX {
      return false;
    }
    out.PutBytes(LE32(|payload| + extra));
    out.PutU8(SubtypeByte(subtype));
    if subtype == BinaryOld {
      out.PutBytes(LE32(|payload|));
    }
    out.PutBytes(payload);
    return true;
  }

  lemma RegexBytes(start: bytes, pattern: Str, options: Str)
    ensures (start + (pattern + [0])) + (options + [0]) == start + ScalarBytes(Regex(pattern, options))
  {
    assert ScalarBytes(Regex(pattern, options)) == (pattern + [0]) + (options + [0]);
    Assoc(start, pattern + [0], options + [0]);
  }

  lemma Assoc(a: bytes, b: bytes, c: bytes)
    ensures (a + b) + c == a + (b + c)
  {
  }

  method PutRegex(pattern: Str, options: Str, out: ByteBuffer) returns (r: Result<(), ScalarError>)
    modifies out
    ensures r == Failing(ScalarFault(Regex(pattern, options)))
    ensures r.Ok? ==> out.data == old(out.data) + ScalarBytes(Regex(pattern, options))
    ensures old(out.data) <= out.data
  {
    hide NulFree;
    var ok := out.PutCString(pattern);
    if !ok {
      return Err(Invalid(TAG_REGEX, "interior NUL in pattern"));
    }
    ok := out.PutCString(options);
    if !ok {
      return Err(Invalid(TAG_REGEX, "interior NUL in options"));
    }
    RegexBytes(old(out.data), pattern, options);
    return Ok(());
  }

  /** The scalars without a length that could overflow. */
  method PutFixed(s: Scalar, out: ByteBuffer)
    requires !s.String? && !s.JavaScript? && !s.Symbol? && !s.DbPointer? && !s.Binary? && !s.Regex?
    modifies out
    ensures out.data == old(out.data) + ScalarBytes(s)
  {
    hide LE32, LE64;
    match s {
      case Bool(v) => out.PutU8(if v then 1 else 0);
      case DateTime(v) => out.PutBytes(LE64(v));
      case Int64(v) => out.PutBytes(LE64(v));
      case Int32(v) => out.PutBytes(LE32(v));
      case Timestamp(seconds, increment) =>
        out.PutBytes(LE32(increment));
        out.PutBytes(LE32(seconds));
        Assoc(old(out.data), LE32(increment), LE32(seconds));
      case Double(b) => out.PutBytes(b);
      case ObjectId(b) => out.PutBytes(b);
      case Decimal128(b) => out.PutBytes(b);
      case _ =>
    }
  }

  method EncodeScalar(s: Scalar, out: ByteBuffer) returns (r: Result<nat, ScalarError>)
    modifies out
    ensures r == if ScalarFault(s).Some? then Err(ScalarFault(s).value) else Ok(|ScalarBytes(s)|)
    ensures r.Ok? <==> Encodes(s)
    ensures r.Ok? ==> out.data == old(out.data) + ScalarBytes(s)
    ensures old(out.data) <= out.data
  {
    hide LE32, LE64, BinaryBytes, StringBytes, NulFree;
    ScalarFaultIff(s);
    var start := |out.data|;
    var ok := true;
    match s {
      case String(t) => ok := PutString(t, out);
      case JavaScript(t) => ok := PutString(t, out);
      case Symbol(t) => ok := PutString(t, out);
      case DbPointer(n, b) =>
        ok := PutString(n, out);
        if ok {
          out.PutBytes(b);
          Assoc(old(out.data), StringBytes(n), b);
        }
      case Binary(subtype, payload) => ok := PutBinary(subtype, payload, out);
      case Regex(p, o) =>
        var done := PutRegex(p, o, out);
        if done.Err? {
          return Err(done.error);
        }
      case _ => PutFixed(s, out);
    }
    if !ok {
      return Err(OutOfRange);
    }
    return Ok(|out.data| - start);
  }

  // ------------------------------------------------------------ composites

  /** Overwrite the placeholder with the number of bytes from it to the end. */
  method PatchLen(out: ByteBuffer, pos: nat) returns (r: Result<(), Error>)
    requires pos + 4 <= |out.data|
    modifies out
    ensures r == Failing(LengthFault(|old(out.data)| - pos, pos))
    ensures r.Ok? ==> out.data == old(out.data)[..pos] + LE32(|old(out.data)| - pos) + old(out.data)[pos + 4..]
    ensures r.Err? ==> out.data == old(out.data)
  {
    var total := |out.data| - pos;
    if total > I32_MAX {
      return Err(InvalidInput(pos, "document exceeds the maximum BSON length"));
    }
    out.PutI32LeAt(pos, total);
    return Ok(());
  }

  lemma {:induction false} FieldSizeAt(fs: seq<Field>, i: nat)
    requires i < |fs|
    ensures Size(fs[i].value) <= FieldsSize(fs)
    decreases i
  {
    if i > 0 {
      FieldSizeAt(fs[1..], i - 1);
    }
  }

  lemma ArrayIsIndexed(vs: seq<Bson>)
    ensures ValueBytes(Array(vs)) == Framed(FieldsBytes(Indexed(vs, 0)))
  {
  }

  lemma NoFields()
    ensures FieldsBytes([]) == [] && forall at: nat :: FieldsFault([], at) == None
  {
  }

  /** One iteration of the field loop. */
  lemma FaultCons(fs: seq<Field>, at: nat)
    requires fs != []
    ensures FieldsFault(fs, at) ==
            if FieldFault(fs[0], at).Some? then FieldFault(fs[0], at)
            else FieldsFault(fs[1..], at + |FieldBytes(fs[0])|)
  {
    hide FieldFault, FieldBytes;
  }

  lemma FieldStep(fs: seq<Field>, i: nat, at: nat)
    requires i < |fs|
    ensures Size(fs[i].value) <= FieldsSize(fs)
    ensures FieldsBytes(fs[..i + 1]) == FieldsBytes(fs[..i]) + FieldBytes(fs[i])
    ensures FieldsFault(fs[i..], at) ==
            if FieldFault(fs[i], at).Some? then FieldFault(fs[i], at)
            else FieldsFault(fs[i + 1..], at + |FieldBytes(fs[i])|)
  {
    hide FieldBytes, FieldsBytes, FieldsFault, FieldFault, Size, FieldsSize;
    FieldSizeAt(fs, i);
    FieldsBytesAppend(fs[..i], fs[i]);
    CutAt(fs, i);
    FaultCons(fs[i..], at);
  }

  lemma CutAt<T>(s: seq<T>, i: nat)
    requires i < |s|
    ensures s[..i] + [s[i]] == s[..i + 1] && s[i..][0] == s[i] && s[i..][1..] == s[i + 1..]
  {
  }

  lemma PatchedPrefix(start: bytes, content: bytes, written: bytes)
    requires written == start + [0, 0, 0, 0] + content
    ensures |written| - |start| == 4 + |content|
    ensures written[..|start|] + LE32(4 + |content|) + written[|start| + 4..] == start + (LE32(4 + |content|) + content)
  {
    hide LE32;
    assert written[..|start|] == start && written[|start| + 4..] == content;
  }

  lemma ScopeBytes(code: Str, scope: bytes, at: nat)
    ensures var content := StringBytes(code) + scope;
            && ValueBytes(JavaScriptScope(code, scope)) == LE32(4 + |content|) + content
            && ValueFault(JavaScriptScope(code, scope), at) ==
               if |scope| < MIN_DOC_LEN then Some(InvalidInput(at, "empty JavaScript scope document"))
               else if |code| + 1 > I32_MAX then Some(InvalidInput(at + 4, "string too large"))
               else LengthFault(4 + |content|, at)
  {
    hide LE32, StringBytes;
  }

  lemma PatchedIsFramed(start: bytes, elements: bytes, written: bytes)
    requires written == start + [0, 0, 0, 0] + elements + [0]
    ensures |written| - |start| == |Framed(elements)|
    ensures written[..|start|] + LE32(|written| - |start|) + written[|start| + 4..] == start + Framed(elements)
  {
    hide LE32;
    assert written[..|start|] == start && written[|start| + 4..] == elements + [0];
  }

  lemma FieldPieces(start: bytes, tag: byte, name: bytes, value: bytes)
    ensures (start + [tag]) + (name + [0]) + value == start + ([tag] + name + [0] + value)
  {
  }

  method EncodeField(name: Str, value: Bson, out: ByteBuffer) returns (r: Result<(), Error>)
    modifies out
    ensures r == Failing(FieldFault(Field(name, value), |old(out.data)|))
    ensures r.Ok? ==> out.data == old(out.data) + FieldBytes(Field(name, value))
    ensures old(out.data) <= out.data
    decreases Size(value), 1
  {
    hide ValueFault, ValueBytes, Tag, NulFree;
    var start := |out.data|;
    out.PutU8(Tag(value));
    var ok := out.PutCString(name);
    if !ok {
      return Err(InvalidInput(start, "interior NUL in field name"));
    }
    r := EncodeValue(value, out);
    FieldPieces(old(out.data), Tag(value), name, ValueBytes(value));
  }

  method EncodeValue(value: Bson, out: ByteBuffer) returns (r: Result<(), Error>)
    modifies out
    ensures r == Failing(ValueFault(value, |old(out.data)|))
    ensures r.Ok? ==> out.data == old(out.data) + ValueBytes(value)
    ensures old(out.data) <= out.data
    decreases Size(value), 0
  {
    hide LE32, FieldsFault, FieldsBytes, StringBytes, ScalarBytes, Indexed, ScalarFault;
    match value {
      case Document(fs) => r := EncodeDocument(fs, out);
      case Array(vs) => r := EncodeArray(vs, out);
      case JavaScriptScope(code, scope) => r := EncodeScope(code, scope, out);
      case ScalarValue(s) =>
        var done := EncodeScalar(s, out);
        if done.Err? {
          return Err(ScalarFailure(done.error));
        }
        return Ok(());
    }
  }

  method EncodeScope(code: Str, scope: bytes, out: ByteBuffer) returns (r: Result<(), Error>)
    modifies out
    ensures r == Failing(ValueFault(JavaScriptScope(code, scope), |old(out.data)|))
    ensures r.Ok? ==> out.data == old(out.data) + ValueBytes(JavaScriptScope(code, scope))
    ensures old(out.data) <= out.data
  {
    hide LE32, ValueBytes, StringBytes, ValueFault;
    ScopeBytes(code, scope, |out.data|);
    if |scope| < MIN_DOC_LEN {
      return Err(InvalidInput(|out.data|, "empty JavaScript scope document"));
    }
    var pos := out.PlaceholderI32();
    var ok := PutString(code, out);
    if !ok {
      return Err(InvalidInput(|out.data|, "string too large"));
    }
    out.PutBytes(scope);
    Assoc(old(out.data) + [0, 0, 0, 0], StringBytes(code), scope);
    PatchedPrefix(old(out.data), StringBytes(code) + scope, out.data);
    r := PatchLen(out, pos);
  }

  method EncodeDocument(fs: seq<Field>, out: ByteBuffer) returns (r: Result<(), Error>)
    modifies out
    ensures r == Failing(ValueFault(Document(fs), |old(out.data)|))
    ensures r.Ok? <==> EncodesValue(Document(fs))
    ensures r.Ok? ==> out.data == old(out.data) + DocumentBytes(fs)
    ensures old(out.data) <= out.data
    decreases FieldsSize(fs), 3
  {
    hide LE32, FieldBytes, Framed, FieldsBytes, FieldsFault, FieldFault, EncodesFields;
    ValueFaultIff(Document(fs), |out.data|);
    var pos := out.PlaceholderI32();
    NoFields();
    for i := 0 to |fs|
      invariant out.data == old(out.data) + [0, 0, 0, 0] + FieldsBytes(fs[..i])
      invariant FieldsFault(fs, pos + 4) == FieldsFault(fs[i..], |out.data|)
    {
      FieldStep(fs, i, |out.data|);
      r := EncodeField(fs[i].name, fs[i].value, out);
      if r.Err? {
        return;
      }
    }
    assert fs[..|fs|] == fs && fs[|fs|..] == [];
    out.PutU8(0);
    PatchedIsFramed(old(out.data), FieldsBytes(fs), out.data);
    r := PatchLen(out, pos);
  }

  method EncodeArray(vs: seq<Bson>, out: ByteBuffer) returns (r: Result<(), Error>)
    modifies out
    ensures r == Failing(ValueFault(Array(vs), |old(out.data)|))
    ensures r.Ok? ==> out.data == old(out.data) + ValueBytes(Array(vs))
    ensures old(out.data) <= out.data
    decreases ValuesSize(vs), 3
  {
    hide LE32, Framed, Indexed, FieldsBytes, FieldBytes, FieldsFault, FieldFault, ValueBytes, Size, FieldsSize,
      Decimal;
    ghost var fs := Indexed(vs, 0);
    ArrayIsIndexed(vs);
    var pos := out.PlaceholderI32();
    NoFields();
    for i := 0 to |vs|
      invariant out.data == old(out.data) + [0, 0, 0, 0] + FieldsBytes(fs[..i])
      invariant FieldsFault(fs, pos + 4) == FieldsFault(fs[i..], |out.data|)
    {
      IndexedAt(vs, 0, i);
      FieldStep(fs, i, |out.data|);
      r := EncodeField(Decimal(i), vs[i], out);
      if r.Err? {
        return;
      }
    }
    assert fs[..|fs|] == fs && fs[|fs|..] == [];
    out.PutU8(0);
    PatchedIsFramed(old(out.data), FieldsBytes(fs), out.data);
    r := PatchLen(out, pos);
  }

  /** `Document::encode`: the encoder's output always validates. */
  method EncodeToRaw(fs: seq<Field>) returns (r: Result<bytes, Error>)
    ensures ValueFault(Document(fs), 0).Some? ==> r == Err(ValueFault(Document(fs), 0).value)
    ensures r.Ok? <==> EncodesValue(Document(fs))
    ensures r.Ok? ==> r.value == DocumentBytes(fs) && ValidDocument(r.value)
  {
    hide LE32, U32, FieldsBytes, EncodesFields, Framed;
    var out := new ByteBuffer();
    var done := EncodeDocument(fs, out);
    if done.Err? {
      return Err(done.error);
    }
    assert out.data == DocumentBytes(fs);
    FramedIsValid(FieldsBytes(fs));
    r := FromBytes(out.data);
  }
}
