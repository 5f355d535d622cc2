/** The document scanner and the recursive decoder built on it
    (wirebson/src/decode.rs, wirebson/src/raw.rs, wirebson/src/raw_value.rs). */
module Documents {
  import opened Bytes
  import opened Text
  import opened ScalarCodec
  import opened BsonModel
  import opened Decode
  import opened RawValue

  /** Everything behind the length prefix. */
  function Body(doc: bytes): bytes {
    if |doc| < 4 then [] else doc[4..]
  }

  /** How many bytes a nested document or array occupies. */
  function ChildSize(raw: RawBson): nat {
    match raw
    case RawDocument(b) => |b|
    case RawArray(b) => |b|
    case _ => 0
  }

  datatype Step = End | Item(name: Str, value: RawBson, next: nat)

  /** The value at `voff` of the body and the offset behind it. */
  function ValueAt(body: bytes, tag: byte, voff: nat): (r: Result<(RawBson, nat), Error>)
    requires voff <= |body|
    ensures r.Ok? ==> voff + ChildSize(r.value.0) <= r.value.1 <= |body|
  {
    var (value, rest) :- ParseValue(tag, body[voff..], 4 + voff);
    ParseValueShrinks(tag, body[voff..], 4 + voff);
    Ok((value, |body| - |rest|))
  }

  /** `Scanner::next` at `offset` of the body: the field there and the offset
      behind it. A field takes at least two bytes, and a nested composite is at
      least six bytes shorter than the document that holds it. */
  function ScanNext(doc: bytes, offset: nat): (r: Result<Step, Error>)
    ensures r.Ok? && r.value.Item? ==>
              && offset + 2 <= r.value.next <= |Body(doc)|
              && (r.value.value.RawDocument? || r.value.value.RawArray? ==> ChildSize(r.value.value) + 6 <= |doc|)
  {
    var body := Body(doc);
    if offset >= |body| then Err(ShortDocument(offset + 1, |body|))
    else if body[offset] == 0 then
      if offset + 1 != |body| then Err(InvalidInput(offset, "data after end-of-document marker"))
      else Ok(End)
    else
      var named := body[offset + 1..];
      var rel := FindNul(named);
      if rel == |named| then Err(ShortDocument(|body| + 1, |body|))
      else if !ValidUtf8(named[..rel]) then Err(Utf8)
      else
        var voff := offset + 1 + rel + 1;
        var (value, next) :- ValueAt(body, body[offset], voff);
        Ok(Item(named[..rel], value, next))
  }

  lemma ParseValueShrinks(tag: byte, rest: bytes, abs: nat)
    requires ParseValue(tag, rest, abs).Ok?
    ensures |ParseValue(tag, rest, abs).value.1| + ChildSize(ParseValue(tag, rest, abs).value.0) <= |rest|
  {
    hide LE32, U32, ParseValue, ScalarBytes, StringBytes;
    ParseValueExact(tag, rest, abs);
  }

  // ------------------------------------------------------------ decoding

  /** The fields from `offset` on, in order. */
  function DecodeItems(doc: bytes, offset: nat, mode: Mode, depth: nat): Result<seq<Field>, Error>
    decreases |doc|, 1, |Body(doc)| - offset
  {
    var step :- ScanNext(doc, offset);
    match step
    case End => Ok([])
    case Item(name, raw, next) =>
      var value :- Materialize(raw, mode, depth);
      var fields :- DecodeItems(doc, next, mode, depth);
      Ok([Field(name, value)] + fields)
  }

  function DecodeDocument(doc: bytes, mode: Mode, depth: nat): Result<seq<Field>, Error>
    decreases |doc|, 2
  {
    if depth > MAX_NESTING_DEPTH then Err(NestedTooDeep(MAX_NESTING_DEPTH))
    else DecodeItems(doc, 0, mode, depth)
  }

  /** Element names are read and dropped. */
  function DecodeArray(doc: bytes, mode: Mode, depth: nat): Result<seq<Bson>, Error>
    decreases |doc|, 2
  {
    if depth > MAX_NESTING_DEPTH then Err(NestedTooDeep(MAX_NESTING_DEPTH))
    else
      var items :- DecodeItems(doc, 0, mode, depth);
      Ok(Values(items))
  }

  function Materialize(raw: RawBson, mode: Mode, depth: nat): Result<Bson, Error>
    decreases ChildSize(raw), 5
  {
    match raw
    case RawDocument(b) =>
      var fields :- DecodeDocument(b, mode, depth + 1);
      Ok(Document(fields))
    case RawArray(b) =>
      var values :- DecodeArray(b, mode, depth + 1);
      Ok(Array(values))
    case RawScope(code, scope) => Ok(JavaScriptScope(code, scope))
    case _ => if mode == Shallow then ToBson(raw) else ToDeep(raw)
  }

  /** `RawBsonRef::to_bson`: nested composites start again at depth 1. */
  function ToBson(raw: RawBson): Result<Bson, Error>
    decreases ChildSize(raw), 3
  {
    match raw
    case RawScalar(s) => Ok(ScalarValue(s))
    case RawDocument(b) =>
      var fields :- DecodeDocument(b, Shallow, 1);
      Ok(Document(fields))
    case RawArray(b) =>
      var values :- DecodeArray(b, Shallow, 1);
      Ok(Array(values))
    case RawScope(code, scope) => Ok(JavaScriptScope(code, scope))
  }

  /** `RawBsonRef::deep`. */
  function ToDeep(raw: RawBson): Result<Bson, Error>
    decreases ChildSize(raw), 4
  {
    match raw
    case RawDocument(b) =>
      var fields :- DecodeDocument(b, Deep, 1);
      Ok(Document(fields))
    case RawArray(b) =>
      var values :- DecodeArray(b, Deep, 1);
      Ok(Array(values))
    case RawScope(code, scope) => Ok(JavaScriptScope(code, scope))
    case _ => ToBson(raw)
  }

  // ------------------------------------------------------------ modes and depth

  predicate Composite(raw: RawBson) {
    raw.RawDocument? || raw.RawArray?
  }

  /** Shallow and deep decoding agree on every input, errors included. */
  lemma {:induction false} ModesAgree(doc: bytes, offset: nat, depth: nat)
    ensures DecodeItems(doc, offset, Shallow, depth) == DecodeItems(doc, offset, Deep, depth)
    decreases |doc|, 1, |Body(doc)| - offset
  {
    hide ScanNext, Materialize;
    var step := ScanNext(doc, offset);
    if step.Ok? && step.value.Item? {
      MaterializeModesAgree(step.value.value, depth);
      ModesAgree(doc, step.value.next, depth);
    }
  }

  lemma {:induction false} MaterializeModesAgree(raw: RawBson, depth: nat)
    ensures Materialize(raw, Shallow, depth) == Materialize(raw, Deep, depth)
    decreases ChildSize(raw), 5
  {
    hide DecodeItems, Values;
    if Composite(raw) {
      ModesAgree(raw.bytes, 0, depth + 1);
    }
  }

  /** What decodes at some depth decodes to the same fields at any smaller one. */
  lemma {:induction false} ShallowerDecodes(doc: bytes, offset: nat, mode: Mode, depth: nat, depth': nat)
    requires depth' <= depth
    requires DecodeItems(doc, offset, mode, depth).Ok?
    ensures DecodeItems(doc, offset, mode, depth') == DecodeItems(doc, offset, mode, depth)
    decreases |doc|, 1, |Body(doc)| - offset
  {
    hide ScanNext, Materialize;
    var step := ScanNext(doc, offset).value;
    if step.Item? {
      ShallowerMaterializes(step.value, mode, depth, depth');
      ShallowerDecodes(doc, step.next, mode, depth, depth');
    }
  }

  lemma {:induction false} ShallowerMaterializes(raw: RawBson, mode: Mode, depth: nat, depth': nat)
    requires depth' <= depth
    requires Materialize(raw, mode, depth).Ok?
    ensures Materialize(raw, mode, depth') == Materialize(raw, mode, depth)
    decreases ChildSize(raw), 5
  {
    hide DecodeItems, Values;
    if Composite(raw) {
      ShallowerDecodes(raw.bytes, 0, mode, depth + 1, depth' + 1);
    }
  }

  // ------------------------------------------------------------ raw lookup

  /** `RawDocument::get`: the first raw value with this name. */
  function RawGet(doc: bytes, offset: nat, key: Str): Result<Option<RawBson>, Error>
    decreases |Body(doc)| - offset
  {
    var step :- ScanNext(doc, offset);
    match step
    case End => Ok(None)
    case Item(name, raw, next) =>
      if name == key then Ok(Some(raw)) else RawGet(doc, next, key)
  }

  lemma ToDeepOfMaterialized(raw: RawBson, mode: Mode, depth: nat)
    requires Materialize(raw, mode, depth).Ok?
    ensures ToDeep(raw) == Materialize(raw, mode, depth)
    ensures ToBson(raw) == Materialize(raw, mode, depth)
  {
    hide ScanNext, Values, DecodeItems;
    MaterializeModesAgree(raw, depth);
    MaterializeModesAgree(raw, 0);
    ShallowerMaterializes(raw, mode, depth, 0);
  }

  /** Whenever a document decodes, looking a key up in the raw bytes and then
      materializing it gives what the eager document returns. */
  lemma {:induction false} RawGetAgrees(doc: bytes, offset: nat, key: Str, mode: Mode, depth: nat)
    requires DecodeItems(doc, offset, mode, depth).Ok?
    ensures var found := RawGet(doc, offset, key);
            var eager := Get(DecodeItems(doc, offset, mode, depth).value, key);
            && found.Ok?
            && (eager == None ==> found.value == None)
            && (eager.Some? ==> found.value.Some? && ToDeep(found.value.value) == Ok(eager.value)
                                && ToBson(found.value.value) == Ok(eager.value))
    decreases |Body(doc)| - offset
  {
    hide ScanNext, Values, Materialize, ToDeep, ToBson;
    var step := ScanNext(doc, offset).value;
    if step.Item? {
      var fields := DecodeItems(doc, offset, mode, depth).value;
      ToDeepOfMaterialized(step.value, mode, depth);
      RawGetAgrees(doc, step.next, key, mode, depth);
      assert fields[1..] == DecodeItems(doc, step.next, mode, depth).value;
    }
  }
}
