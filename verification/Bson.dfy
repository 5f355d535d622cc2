/** Eager BSON values and their wire image (wirebson/src/value.rs,
    wirebson/src/document.rs, wirebson/src/array.rs). The scalar variants of the
    value enum are carried by one constructor, as `as_scalar` and
    `From<Scalar>` convert them one to one. */
module BsonModel {
  import opened Bytes
  import opened Text
  import opened ScalarCodec

  datatype Bson =
    | ScalarValue(scalar: Scalar)
    | Document(fields: seq<Field>)
    | Array(values: seq<Bson>)
    | JavaScriptScope(code: Str, scope: bytes)

  datatype Field = Field(name: Str, value: Bson)

  const MAX_NESTING_DEPTH := 20

  function Tag(v: Bson): byte {
    match v
    case ScalarValue(s) => TagOf(s)
    case Document(_) => TAG_DOCUMENT
    case Array(_) => TAG_ARRAY
    case JavaScriptScope(_, _) => TAG_JAVASCRIPT_SCOPE
  }

  /** The first field with this name. */
  function Get(fields: seq<Field>, name: Str): Option<Bson> {
    if fields == [] then None
    else if fields[0].name == name then Some(fields[0].value)
    else Get(fields[1..], name)
  }

  // ------------------------------------------------------------ arrays as fields

  function Size(v: Bson): (n: nat)
    ensures n >= 1
    decreases v
  {
    match v
    case Document(fs) => 1 + FieldsSize(fs)
    case Array(vs) => 1 + ValuesSize(vs)
    case _ => 1
  }

  function FieldsSize(fs: seq<Field>): nat
    decreases fs
  {
    if fs == [] then 0 else Size(fs[0].value) + FieldsSize(fs[1..])
  }

  function ValuesSize(vs: seq<Bson>): nat
    decreases vs
  {
    if vs == [] then 0 else Size(vs[0]) + ValuesSize(vs[1..])
  }

  /** An array's elements named "i", "i+1", … in order. */
  function Indexed(vs: seq<Bson>, i: nat): (fs: seq<Field>)
    ensures |fs| == |vs| && FieldsSize(fs) == ValuesSize(vs)
  {
    if vs == [] then []
    else
      var fs := [Field(Decimal(i), vs[0])] + Indexed(vs[1..], i + 1);
      assert fs[1..] == Indexed(vs[1..], i + 1);
      fs
  }

  /** Element `k` of an array is named by the numeral of its index. */
  lemma {:induction false} IndexedAt(vs: seq<Bson>, k: nat, i: nat)
    requires i < |vs|
    ensures Indexed(vs, k)[i] == Field(Decimal(k + i), vs[i])
    decreases i
  {
    if i > 0 {
      IndexedAt(vs[1..], k + 1, i - 1);
    }
  }

  /** The values of a field list, names dropped. */
  function Values(fs: seq<Field>): (vs: seq<Bson>)
    ensures |vs| == |fs|
  {
    if fs == [] then [] else [fs[0].value] + Values(fs[1..])
  }

  lemma {:induction false} ValuesOfIndexed(vs: seq<Bson>, i: nat)
    ensures Values(Indexed(vs, i)) == vs
  {
    if vs != [] {
      var fs := Indexed(vs, i);
      assert fs[1..] == Indexed(vs[1..], i + 1);
      ValuesOfIndexed(vs[1..], i + 1);
    }
  }

  // ------------------------------------------------------------ wire image

  /** A length-prefixed, NUL-terminated element list. */
  function Framed(elements: bytes): (b: bytes)
    ensures |b| == |elements| + 5
  {
    LE32(|elements| + 5) + elements + [0]
  }

  function ValueBytes(v: Bson): bytes
    decreases Size(v), 0
  {
    match v
    case ScalarValue(s) => ScalarBytes(s)
    case Document(fs) => Framed(FieldsBytes(fs))
    case Array(vs) => Framed(FieldsBytes(Indexed(vs, 0)))
    case JavaScriptScope(code, scope) =>
      LE32(4 + |StringBytes(code)| + |scope|) + StringBytes(code) + scope
  }

  function FieldBytes(f: Field): bytes
    decreases Size(f.value), 1
  {
    [Tag(f.value)] + f.name + [0] + ValueBytes(f.value)
  }

  function FieldsBytes(fs: seq<Field>): bytes
    decreases FieldsSize(fs), 2, |fs|
  {
    if fs == [] then [] else FieldBytes(fs[0]) + FieldsBytes(fs[1..])
  }

  function DocumentBytes(fs: seq<Field>): bytes {
    ValueBytes(Document(fs))
  }

  lemma FieldsBytesCons(f: Field, fs: seq<Field>)
    ensures FieldsBytes([f] + fs) == FieldBytes(f) + FieldsBytes(fs)
  {
    assert ([f] + fs)[1..] == fs;
  }

  lemma {:induction false} FieldsBytesAppend(fs: seq<Field>, f: Field)
    ensures FieldsBytes(fs + [f]) == FieldsBytes(fs) + FieldBytes(f)
    decreases |fs|
  {
    if fs == [] {
      assert fs + [f] == [f] + [];
      FieldsBytesCons(f, []);
      assert FieldsBytes([f]) == FieldBytes(f) + [];
    } else {
      assert (fs + [f])[1..] == fs[1..] + [f];
      FieldsBytesAppend(fs[1..], f);
      assert (fs + [f])[0] == fs[0];
    }
  }

  // ------------------------------------------------------------ encodability

  /** `encode_value` succeeds: no NUL in a name or regex part, no empty scope,
      and every length that is written fits an `i32`. */
  predicate EncodesValue(v: Bson)
    decreases Size(v), 0
  {
    match v
    case ScalarValue(s) => Encodes(s)
    case Document(fs) => EncodesFields(fs) && |ValueBytes(v)| <= I32_MAX
    case Array(vs) => EncodesFields(Indexed(vs, 0)) && |ValueBytes(v)| <= I32_MAX
    case JavaScriptScope(code, scope) =>
      |scope| >= MIN_DOC_LEN && |code| + 1 <= I32_MAX && |ValueBytes(v)| <= I32_MAX
  }

  predicate EncodesFields(fs: seq<Field>)
    decreases FieldsSize(fs), 2, |fs|
  {
    fs == [] || (NulFree(fs[0].name) && EncodesValue(fs[0].value) && EncodesFields(fs[1..]))
  }

  /** The part of encodability that has nothing to do with size. */
  predicate CleanValue(v: Bson)
    decreases Size(v), 0
  {
    match v
    case ScalarValue(s) => s.Regex? ==> NulFree(s.pattern) && NulFree(s.options)
    case Document(fs) => CleanFields(fs)
    case Array(vs) => CleanFields(Indexed(vs, 0))
    case JavaScriptScope(_, scope) => |scope| >= MIN_DOC_LEN
  }

  predicate CleanFields(fs: seq<Field>)
    decreases FieldsSize(fs), 2, |fs|
  {
    fs == [] || (NulFree(fs[0].name) && CleanValue(fs[0].value) && CleanFields(fs[1..]))
  }

  lemma {:induction false} EncodesValueIff(v: Bson)
    ensures EncodesValue(v) ==> CleanValue(v)
    ensures CleanValue(v) && |ValueBytes(v)| <= I32_MAX ==> EncodesValue(v)
    decreases Size(v), 0
  {
    match v
    case ScalarValue(s) =>
    case Document(fs) => EncodesFieldsIff(fs);
    case Array(vs) => EncodesFieldsIff(Indexed(vs, 0));
    case JavaScriptScope(_, _) =>
  }

  lemma {:induction false} EncodesFieldsIff(fs: seq<Field>)
    ensures EncodesFields(fs) ==> CleanFields(fs)
    ensures CleanFields(fs) && |FieldsBytes(fs)| <= I32_MAX ==> EncodesFields(fs)
    decreases FieldsSize(fs), 2, |fs|
  {
    if fs != [] {
      assert FieldsBytes(fs) == FieldBytes(fs[0]) + FieldsBytes(fs[1..]);
      EncodesValueIff(fs[0].value);
      EncodesFieldsIff(fs[1..]);
    }
  }

  /** Encoding a document fails only for a NUL in a name or regex, an empty
      scope, or a total size beyond `i32::MAX`: no inner length can overflow
      on its own. */
  lemma DocumentEncodesIff(fs: seq<Field>)
    ensures EncodesValue(Document(fs)) <==> CleanFields(fs) && |DocumentBytes(fs)| <= I32_MAX
  {
    EncodesValueIff(Document(fs));
  }

  // ------------------------------------------------------------ shape

  /** Nesting depth: a document or array counts one more than its deepest child. */
  function Depth(v: Bson): nat
    decreases Size(v), 0
  {
    match v
    case Document(fs) => 1 + FieldsDepth(fs)
    case Array(vs) => 1 + FieldsDepth(Indexed(vs, 0))
    case _ => 0
  }

  function FieldsDepth(fs: seq<Field>): nat
    decreases FieldsSize(fs), 2, |fs|
  {
    if fs == [] then 0 else
      var d, rest := Depth(fs[0].value), FieldsDepth(fs[1..]);
      if d > rest then d else rest
  }

  /** A complete document: declared length, minimum size and final NUL. */
  predicate ValidDocument(b: bytes) {
    |b| >= MIN_DOC_LEN && U32(b) == |b| && b[|b| - 1] == 0
  }

  /** The values a decoder can return: NUL-free names, representable scalars and
      scopes that are complete documents. */
  predicate FaithfulValue(v: Bson)
    decreases Size(v), 0
  {
    match v
    case ScalarValue(s) => Representable(s)
    case Document(fs) => FaithfulFields(fs)
    case Array(vs) => FaithfulFields(Indexed(vs, 0))
    case JavaScriptScope(_, scope) => ValidDocument(scope)
  }

  predicate FaithfulFields(fs: seq<Field>)
    decreases FieldsSize(fs), 2, |fs|
  {
    fs == [] || (NulFree(fs[0].name) && FaithfulValue(fs[0].value) && FaithfulFields(fs[1..]))
  }

  lemma {:induction false} FaithfulIsClean(v: Bson)
    ensures FaithfulValue(v) ==> CleanValue(v)
    decreases Size(v), 0
  {
    match v
    case Document(fs) => FaithfulFieldsAreClean(fs);
    case Array(vs) => FaithfulFieldsAreClean(Indexed(vs, 0));
    case _ =>
  }

  lemma {:induction false} FaithfulFieldsAreClean(fs: seq<Field>)
    ensures FaithfulFields(fs) ==> CleanFields(fs)
    decreases FieldsSize(fs), 2, |fs|
  {
    if fs != [] {
      FaithfulIsClean(fs[0].value);
      FaithfulFieldsAreClean(fs[1..]);
    }
  }
}
