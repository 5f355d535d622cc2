/** The scanning and decoding loops (wirebson/src/decode.rs, wirebson/src/raw.rs). */
module Decoder {
  import opened Bytes
  import opened Text
  import opened BsonModel
  import opened Decode
  import opened Documents
  import opened ValueReader

  /** A single-pass cursor over a document's fields. */
  class Scanner {
    const parent: bytes
    const body: bytes
    var offset: nat

    constructor (doc: bytes)
      ensures parent == doc && body == Body(doc) && offset == 0
    {
      parent := doc;
      body := Body(doc);
      offset := 0;
    }

    ghost predicate Valid()
      reads this
    {
      body == Body(parent)
    }

    /** The next field, or nothing at the terminating NUL. */
    method Next() returns (r: Result<Option<(Str, RawBson)>, Error>)
      requires Valid()
      modifies this`offset
      ensures match ScanNext(parent, old(offset))
              case Err(e) => r == Err(e)
              case Ok(End) => r == Ok(None) && offset == old(offset)
              case Ok(Item(name, value, next)) => r == Ok(Some((name, value))) && offset == next
    {
      hide ParseValue, ValidUtf8;
      if offset >= |body| {
        return Err(ShortDocument(offset + 1, |body|));
      }
      var tag := body[offset];
      if tag == 0 {
        if offset + 1 != |body| {
          return Err(InvalidInput(offset, "data after end-of-document marker"));
        }
        return Ok(None);
      }
      offset := offset + 1;
      var rel := FindNul(body[offset..]);
      if rel == |body[offset..]| {
        return Err(ShortDocument(|body| + 1, |body|));
      }
      var name := body[offset..][..rel];
      if !ValidUtf8(name) {
        return Err(Utf8);
      }
      offset := offset + rel + 1;
      var rest := body[offset..];
      var parsed := ReadValue(tag, rest, 4 + offset);
      if parsed.Err? {
        return Err(parsed.error);
      }
      ParseValueShrinks(tag, rest, 4 + offset);
      offset := offset + parsed.value.1;
      return Ok(Some((name, parsed.value.0)));
    }
  }

  function ValuesResult(r: Result<seq<Field>, Error>): Result<seq<Bson>, Error> {
    if r.Ok? then Ok(Values(r.value)) else Err(r.error)
  }

  function ItemResult(name: Str, v: Result<Bson, Error>, r: Result<seq<Field>, Error>): Result<seq<Field>, Error> {
    if v.Err? then Err(v.error) else Prepend([Field(name, v.value)], r)
  }

  /** One iteration of the decoding loop. */
  lemma ItemStep(doc: bytes, offset: nat, mode: Mode, depth: nat)
    ensures var step := ScanNext(doc, offset);
            var items := DecodeItems(doc, offset, mode, depth);
            && (step.Err? ==> items == Err(step.error))
            && (step == Ok(End) ==> items == Ok([]))
            && (step.Ok? && step.value.Item? ==>
                  && step.value.next <= |Body(doc)|
                  && ItemResult(step.value.name, Materialize(step.value.value, mode, depth),
                                DecodeItems(doc, step.value.next, mode, depth)) == items)
  {
    hide ScanNext, Materialize;
  }

  lemma PrependValues(f: Field, r: Result<seq<Field>, Error>)
    ensures ValuesResult(Prepend([f], r)) == Prepend([f.value], ValuesResult(r))
  {
    if r.Ok? {
      assert ([f] + r.value)[1..] == r.value;
    }
  }

  method DecodeFieldsLoop(doc: bytes, mode: Mode, depth: nat) returns (r: Result<seq<Field>, Error>)
    ensures r == DecodeDocument(doc, mode, depth)
    decreases |doc|, 2
  {
    hide DecodeItems, Materialize, ScanNext;
    if depth > MAX_NESTING_DEPTH {
      return Err(NestedTooDeep(MAX_NESTING_DEPTH));
    }
    var scanner := new Scanner(doc);
    var fields := [];
    PrependNothing([], DecodeItems(doc, 0, mode, depth));
    while true
      invariant scanner.Valid() && scanner.parent == doc
      invariant DecodeItems(doc, 0, mode, depth) == Prepend(fields, DecodeItems(doc, scanner.offset, mode, depth))
      decreases |Body(doc)| - scanner.offset
    {
      ghost var at := scanner.offset;
      var step := scanner.Next();
      ItemStep(doc, at, mode, depth);
      if step.Err? {
        return Err(step.error);
      }
      if step.value.None? {
        PrependNothing(fields, DecodeItems(doc, at, mode, depth));
        return Ok(fields);
      }
      var (name, raw) := step.value.value;
      var value := MaterializeRaw(raw, mode, depth);
      if value.Err? {
        return Err(value.error);
      }
      PrependTwice(fields, [Field(name, value.value)], DecodeItems(doc, scanner.offset, mode, depth));
      fields := fields + [Field(name, value.value)];
    }
  }

  method DecodeArrayLoop(doc: bytes, mode: Mode, depth: nat) returns (r: Result<seq<Bson>, Error>)
    ensures r == DecodeArray(doc, mode, depth)
    decreases |doc|, 2
  {
    hide DecodeItems, Materialize, ScanNext;
    if depth > MAX_NESTING_DEPTH {
      return Err(NestedTooDeep(MAX_NESTING_DEPTH));
    }
    var scanner := new Scanner(doc);
    var values := [];
    ghost var whole := ValuesResult(DecodeItems(doc, 0, mode, depth));
    PrependNothing([], whole);
    while true
      invariant scanner.Valid() && scanner.parent == doc
      invariant whole == Prepend(values, ValuesResult(DecodeItems(doc, scanner.offset, mode, depth)))
      decreases |Body(doc)| - scanner.offset
    {
      ghost var at := scanner.offset;
      var step := scanner.Next();
      ItemStep(doc, at, mode, depth);
      if step.Err? {
        return Err(step.error);
      }
      if step.value.None? {
        PrependNothing(values, whole);
        return Ok(values);
      }
      var (name, raw) := step.value.value;
      var value := MaterializeRaw(raw, mode, depth);
      if value.Err? {
        return Err(value.error);
      }
      ghost var rest := DecodeItems(doc, scanner.offset, mode, depth);
      PrependValues(Field(name, value.value), rest);
      PrependTwice(values, [value.value], ValuesResult(rest));
      values := values + [value.value];
    }
  }

  method MaterializeRaw(raw: RawBson, mode: Mode, depth: nat) returns (r: Result<Bson, Error>)
    ensures r == Materialize(raw, mode, depth)
    decreases ChildSize(raw), 5
  {
    hide DecodeItems;
    match raw {
      case RawDocument(b) =>
        var fields := DecodeFieldsLoop(b, mode, depth + 1);
        return if fields.Ok? then Ok(Document(fields.value)) else Err(fields.error);
      case RawArray(b) =>
        var values := DecodeArrayLoop(b, mode, depth + 1);
        return if values.Ok? then Ok(Array(values.value)) else Err(values.error);
      case RawScope(code, scope) =>
        return Ok(JavaScriptScope(code, scope));
      case RawScalar(_) =>
        return if mode == Shallow then ToBson(raw) else ToDeep(raw);
    }
  }

  /** `RawDocument::get` over the field iterator. */
  method FindRaw(doc: bytes, key: Str) returns (r: Result<Option<RawBson>, Error>)
    ensures r == RawGet(doc, 0, key)
  {
    hide ScanNext;
    var scanner := new Scanner(doc);
    while true
      invariant scanner.Valid() && scanner.parent == doc
      invariant RawGet(doc, 0, key) == RawGet(doc, scanner.offset, key)
      decreases |Body(doc)| - scanner.offset
    {
      var step := scanner.Next();
      if step.Err? {
        return Err(step.error);
      }
      if step.value.None? {
        return Ok(None);
      }
      if step.value.value.0 == key {
        return Ok(Some(step.value.value.1));
      }
    }
  }
}
