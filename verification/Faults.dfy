/** Which error an encoding ends with: the first thing in writing order that
    cannot be written, at the offset it was to be written at
    (wirebson/src/encode.rs, mongo_common/src/bson/scalar.rs). */
module Faults {
  import opened Bytes
  import opened Text
  import opened ScalarCodec
  import opened BsonModel
  import opened Decode

  function ScalarFault(s: Scalar): Option<ScalarError> {
    if s.Regex? then
      if !NulFree(s.pattern) then Some(Invalid(TAG_REGEX, "interior NUL in pattern"))
      else if !NulFree(s.options) then Some(Invalid(TAG_REGEX, "interior NUL in options"))
      else None
    else if Encodes(s) then None
    else Some(OutOfRange)
  }

  /** A composite of `size` bytes whose length prefix is at `at`. */
  function LengthFault(size: nat, at: nat): Option<Error> {
    if size > I32_MAX then Some(InvalidInput(at, "document exceeds the maximum BSON length")) else None
  }

  function ValueFault(v: Bson, at: nat): Option<Error>
    decreases Size(v), 0
  {
    match v
    case ScalarValue(s) =>
      var f := ScalarFault(s);
      if f.Some? then Some(ScalarFailure(f.value)) else None
    case Document(fs) =>
      var f := FieldsFault(fs, at + 4);
      if f.Some? then f else LengthFault(|ValueBytes(v)|, at)
    case Array(vs) =>
      var f := FieldsFault(Indexed(vs, 0), at + 4);
      if f.Some? then f else LengthFault(|ValueBytes(v)|, at)
    case JavaScriptScope(code, scope) =>
      if |scope| < MIN_DOC_LEN then Some(InvalidInput(at, "empty JavaScript scope document"))
      else if |code| + 1 > I32_MAX then Some(InvalidInput(at + 4, "string too large"))
      else LengthFault(|ValueBytes(v)|, at)
  }

  function FieldFault(f: Field, at: nat): Option<Error>
    decreases Size(f.value), 1
  {
    if !NulFree(f.name) then Some(InvalidInput(at, "interior NUL in field name"))
    else ValueFault(f.value, at + 2 + |f.name|)
  }

  function FieldsFault(fs: seq<Field>, at: nat): Option<Error>
    decreases FieldsSize(fs), 2, |fs|
  {
    if fs == [] then None
    else
      var f := FieldFault(fs[0], at);
      if f.Some? then f else FieldsFault(fs[1..], at + |FieldBytes(fs[0])|)
  }

  /** The result of a step that fails with `fault`. */
  function Failing<E>(fault: Option<E>): Result<(), E> {
    if fault.Some? then Err(fault.value) else Ok(())
  }

  lemma ScalarFaultIff(s: Scalar)
    ensures ScalarFault(s) == None <==> Encodes(s)
  {
  }

  /** There is no fault exactly when the value encodes, wherever it is written. */
  lemma {:induction false} ValueFaultIff(v: Bson, at: nat)
    ensures ValueFault(v, at) == None <==> EncodesValue(v)
    decreases Size(v), 0
  {
    hide ValueBytes, Encodes, ScalarFault;
    match v
    case ScalarValue(s) => ScalarFaultIff(s);
    case Document(fs) => FieldsFaultIff(fs, at + 4);
    case Array(vs) => FieldsFaultIff(Indexed(vs, 0), at + 4);
    case JavaScriptScope(_, _) =>
  }

  lemma {:induction false} FieldsFaultIff(fs: seq<Field>, at: nat)
    ensures FieldsFault(fs, at) == None <==> EncodesFields(fs)
    decreases FieldsSize(fs), 2, |fs|
  {
    hide FieldBytes, NulFree;
    if fs != [] {
      ValueFaultIff(fs[0].value, at + 2 + |fs[0].name|);
      FieldsFaultIff(fs[1..], at + |FieldBytes(fs[0])|);
    }
  }

  /** The first field that cannot be written decides, at the offset behind the
      bytes of all fields before it. */
  lemma {:induction false} FirstFault(good: seq<Field>, bad: Field, rest: seq<Field>, at: nat)
    requires EncodesFields(good) && (!NulFree(bad.name) || !EncodesValue(bad.value))
    ensures FieldsFault(good + ([bad] + rest), at) == FieldFault(bad, at + |FieldsBytes(good)|)
    ensures FieldFault(bad, at + |FieldsBytes(good)|).Some?
    decreases |good|
  {
    hide FieldBytes, NulFree, EncodesValue, ValueFault;
    var fs := good + ([bad] + rest);
    if good == [] {
      assert fs == [bad] + rest;
      ValueFaultIff(bad.value, at + 2 + |bad.name|);
    } else {
      assert fs[1..] == good[1..] + ([bad] + rest);
      ValueFaultIff(good[0].value, at + 2 + |good[0].name|);
      FirstFault(good[1..], bad, rest, at + |FieldBytes(good[0])|);
    }
  }

  /** A NUL in a name is reported where its field was to begin, at the top level
      and inside a nested document. */
  lemma BadNameIsReported(good: seq<Field>, bad: Field, rest: seq<Field>,
                          before: seq<Field>, name: Str, after: seq<Field>)
    requires EncodesFields(good) && !NulFree(bad.name)
    requires EncodesFields(before) && NulFree(name)
    ensures var inner := Document(good + ([bad] + rest));
            && ValueFault(inner, 0) == Some(InvalidInput(4 + |FieldsBytes(good)|, "interior NUL in field name"))
            && ValueFault(Document(before + ([Field(name, inner)] + after)), 0) ==
               Some(InvalidInput(4 + |FieldsBytes(before)| + (2 + |name|) + (4 + |FieldsBytes(good)|),
                                 "interior NUL in field name"))
  {
    hide FieldsBytes, NulFree, EncodesFields, FieldsFault;
    var inner := Document(good + ([bad] + rest));
    var at := 4 + |FieldsBytes(before)| + (2 + |name|);
    FirstFault(good, bad, rest, 4);
    FirstFault(good, bad, rest, at + 4);
    ValueFaultIff(inner, 0);
    FirstFault(before, Field(name, inner), after, 4);
  }

  /** A NUL in a regex part makes scalar encoding fail, though it is documented
      never to. */
  lemma ScalarEncodingCanFail(pattern: Str, options: Str)
    requires 0 in pattern || 0 in options
    ensures ScalarFault(Regex(pattern, options)).Some? && !Encodes(Regex(pattern, options))
  {
  }
}
