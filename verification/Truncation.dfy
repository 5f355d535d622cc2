/** Cut, extended and damaged input is refused: no proper prefix of a value or a
    document is accepted, and a document says what is wrong with it
    (mongo_common/src/bson/scalar.rs, wirebson/src/raw.rs, wirebson/src/decode.rs). */
module Truncation {
  import opened Bytes
  import opened ScalarCodec
  import opened BsonModel
  import opened Decode
  import opened RawValue

  /** No proper prefix of an encoded scalar is accepted under its tag. */
  lemma ScalarCut(s: Scalar, k: nat)
    requires Representable(s) && k < |ScalarBytes(s)| <= U32_MAX
    ensures ParseScalar(TagOf(s), ScalarBytes(s)[..k]).Err?
  {
    hide ParseScalarAt, ScalarBytes, Representable;
    var b := ScalarBytes(s);
    var cut := ParseScalarAt(TagOf(s), b[..k]);
    if cut.Ok? {
      var (s', rest) := cut.value;
      ParseScalarExact(TagOf(s), b[..k]);
      assert b + [] == ScalarBytes(s') + (rest + b[k..]);
      ParseScalarOf(s, []);
      ParseScalarOf(s', rest + b[k..]);
    }
  }

  /** The same for values with documents, arrays and scopes, in the borrowing
      parser. */
  lemma ValueCut(raw: RawBson, k: nat, abs: nat)
    requires ValidRaw(raw) && k < |RawBytes(raw)| <= U32_MAX
    ensures ParseValue(RawTag(raw), RawBytes(raw)[..k], abs).Err?
  {
    hide ParseValue, RawBytes, ValidRaw;
    var b := RawBytes(raw);
    var cut := ParseValue(RawTag(raw), b[..k], abs);
    if cut.Ok? {
      var (raw', rest) := cut.value;
      ParseValueExact(RawTag(raw), b[..k], abs);
      assert b + [] == RawBytes(raw') + (rest + b[k..]);
      ParseValueOf(raw, [], abs);
      ParseValueOf(raw', rest + b[k..], abs);
    }
  }

  /** A cut document is too short to look at or shorter than it declares; an
      extended one is longer. */
  lemma DocumentCut(doc: bytes, k: nat, more: bytes)
    requires ValidDocument(doc) && k < |doc| && more != []
    ensures FromBytes(doc[..k]) == Err(if k < 5 then ShortDocument(5, k) else LengthMismatch(|doc|, k))
    ensures FromBytes(doc + more) == Err(LengthMismatch(|doc|, |doc| + |more|))
  {
    hide U32;
    ValidPrefix(doc, more);
    if k >= 5 {
      assert doc == doc[..k] + doc[k..];
      ValidPrefix(doc[..k], doc[k..]);
    }
  }

  /** A document whose last byte is not NUL is refused at that byte. */
  lemma LastByteDamaged(doc: bytes, x: byte)
    requires ValidDocument(doc) && x != 0
    ensures FromBytes(doc[..|doc| - 1] + [x]) == Err(InvalidInput(|doc| - 1, "missing trailing NUL"))
  {
    hide U32;
    var head := doc[..|doc| - 1];
    assert doc == head + [0];
    ValidPrefix(head, [0]);
    ValidPrefix(head, [x]);
  }
}
