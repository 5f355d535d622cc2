/** Flat documents: every scalar put into one is found again in its raw bytes
    (wirebson/src/document.rs, wirebson/src/raw.rs). */
module Carrier {
  import opened Bytes
  import opened Text
  import opened ScalarCodec
  import opened BsonModel
  import opened Decode
  import Documents
  import RoundTrip

  const OK: Str := Ascii("ok")
  const DB: Str := Ascii("$db")
  const ADMIN: Str := Ascii("admin")

  function ScalarFields(names: seq<Str>, values: seq<Scalar>): (fs: seq<Field>)
    requires |names| == |values|
    ensures |fs| == |names|
    ensures forall i :: 0 <= i < |names| ==> fs[i] == Field(names[i], ScalarValue(values[i]))
  {
    if names == [] then [] else [Field(names[0], ScalarValue(values[0]))] + ScalarFields(names[1..], values[1..])
  }

  function ScalarIn(found: Result<Option<RawBson>, Error>): Option<Scalar> {
    match found
    case Ok(Some(RawScalar(s))) => Some(s)
    case _ => None
  }

  /** What a raw lookup finds, when it finds a scalar. */
  function Lookup(doc: bytes, key: Str): Option<Scalar> {
    ScalarIn(Documents.RawGet(doc, 0, key))
  }

  /** The raw document holds these scalars under these names. */
  predicate HasFields(doc: bytes, names: seq<Str>, values: seq<Scalar>) {
    |names| == |values| && forall i :: 0 <= i < |names| ==> Lookup(doc, names[i]) == Some(values[i])
  }

  predicate Distinct(names: seq<Str>) {
    forall i, j :: 0 <= i < j < |names| ==> names[i] != names[j]
  }

  predicate Writable(names: seq<Str>, values: seq<Scalar>) {
    && (forall i :: 0 <= i < |names| ==> NulFree(names[i]))
    && (forall i :: 0 <= i < |values| ==> Representable(values[i]))
  }

  lemma {:induction false} FlatIsFaithful(names: seq<Str>, values: seq<Scalar>)
    requires |names| == |values| && Writable(names, values)
    ensures FaithfulFields(ScalarFields(names, values)) && FieldsDepth(ScalarFields(names, values)) == 0
  {
    hide NulFree, Representable;
    if names != [] {
      FlatIsFaithful(names[1..], values[1..]);
      var fs := ScalarFields(names, values);
      assert fs[1..] == ScalarFields(names[1..], values[1..]);
    }
  }

  lemma {:induction false} GetScalar(names: seq<Str>, values: seq<Scalar>, i: nat)
    requires |names| == |values| && Distinct(names) && i < |names|
    ensures Get(ScalarFields(names, values), names[i]) == Some(ScalarValue(values[i]))
    decreases i
  {
    var fs := ScalarFields(names, values);
    assert fs[1..] == ScalarFields(names[1..], values[1..]);
    if i > 0 {
      GetScalar(names[1..], values[1..], i - 1);
    }
  }

  /** A scalar field of an encoded document is found in its raw bytes. */
  lemma Carried(fs: seq<Field>, key: Str, v: Scalar)
    requires FaithfulFields(fs) && FieldsDepth(fs) == 0 && |DocumentBytes(fs)| <= U32_MAX
    requires Get(fs, key) == Some(ScalarValue(v))
    ensures Documents.RawGet(DocumentBytes(fs), 0, key) == Ok(Some(RawScalar(v)))
    ensures Lookup(DocumentBytes(fs), key) == Some(v)
  {
    hide FieldsBytes, Framed, FaithfulFields, Documents.DecodeItems, Documents.RawGet, Documents.ToBson,
      Documents.ToDeep, Get, FieldsDepth;
    RoundTrip.DecodeOfEncode(fs, Shallow);
    Documents.RawGetAgrees(DocumentBytes(fs), 0, key, Shallow, 1);
    RawOfScalar(Documents.RawGet(DocumentBytes(fs), 0, key).value.value, v);
  }

  lemma RawOfScalar(raw: RawBson, v: Scalar)
    requires Documents.ToBson(raw) == Ok(ScalarValue(v))
    ensures raw == RawScalar(v)
  {
    hide Documents.DecodeDocument, Documents.DecodeArray;
  }

  /** A flat document with distinct names gives back all it was made of. */
  lemma FlatIsRead(names: seq<Str>, values: seq<Scalar>)
    requires |names| == |values| && Distinct(names) && Writable(names, values)
    requires |DocumentBytes(ScalarFields(names, values))| <= U32_MAX
    ensures HasFields(DocumentBytes(ScalarFields(names, values)), names, values)
  {
    hide ScalarFields, DocumentBytes, FaithfulFields, FieldsDepth, Lookup, Get, Documents.RawGet, NulFree,
      Representable;
    FlatIsFaithful(names, values);
    forall i | 0 <= i < |names|
      ensures Lookup(DocumentBytes(ScalarFields(names, values)), names[i]) == Some(values[i])
    {
      GetScalar(names, values, i);
      Carried(ScalarFields(names, values), names[i], values[i]);
    }
  }

  /** One more scalar field. */
  lemma ScalarFieldCons(name: Str, v: Scalar, rest: seq<Field>)
    requires NulFree(name) && Representable(v)
    ensures var fs := [Field(name, ScalarValue(v))] + rest;
            && (FaithfulFields(rest) ==> FaithfulFields(fs))
            && FieldsDepth(fs) == FieldsDepth(rest)
            && |FieldsBytes(fs)| == 2 + |name| + |ScalarBytes(v)| + |FieldsBytes(rest)|
  {
    hide ScalarBytes, Representable;
    var f := Field(name, ScalarValue(v));
    assert ([f] + rest)[1..] == rest;
    FieldsBytesCons(f, rest);
  }

  lemma EmptyFields()
    ensures FaithfulFields([]) && FieldsDepth([]) == 0 && FieldsBytes([]) == []
  {
  }

  lemma FourFields(n0: Str, v0: Scalar, n1: Str, v1: Scalar, n2: Str, v2: Scalar, n3: Str, v3: Scalar)
    requires NulFree(n0) && NulFree(n1) && NulFree(n2) && NulFree(n3)
    requires Representable(v0) && Representable(v1) && Representable(v2) && Representable(v3)
    ensures var fs := [Field(n0, ScalarValue(v0)), Field(n1, ScalarValue(v1)),
                       Field(n2, ScalarValue(v2)), Field(n3, ScalarValue(v3))];
            && FaithfulFields(fs) && FieldsDepth(fs) == 0
            && |FieldsBytes(fs)| == 8 + |n0| + |n1| + |n2| + |n3|
                                    + |ScalarBytes(v0)| + |ScalarBytes(v1)| + |ScalarBytes(v2)| + |ScalarBytes(v3)|
  {
    hide FaithfulFields, FieldsDepth, FieldsBytes, NulFree, Representable, ScalarBytes;
    var f0, f1 := Field(n0, ScalarValue(v0)), Field(n1, ScalarValue(v1));
    var f2, f3 := Field(n2, ScalarValue(v2)), Field(n3, ScalarValue(v3));
    EmptyFields();
    ScalarFieldCons(n3, v3, []);
    ScalarFieldCons(n2, v2, [f3] + []);
    ScalarFieldCons(n1, v1, [f2] + ([f3] + []));
    ScalarFieldCons(n0, v0, [f1] + ([f2] + ([f3] + [])));
    assert [f0, f1, f2, f3] == [f0] + ([f1] + ([f2] + ([f3] + [])));
  }

  lemma FiveFields(n0: Str, v0: Scalar, n1: Str, v1: Scalar, n2: Str, v2: Scalar, n3: Str, v3: Scalar,
                   n4: Str, v4: Scalar)
    requires NulFree(n0) && NulFree(n1) && NulFree(n2) && NulFree(n3) && NulFree(n4)
    requires Representable(v0) && Representable(v1) && Representable(v2) && Representable(v3) && Representable(v4)
    ensures var fs := [Field(n0, ScalarValue(v0)), Field(n1, ScalarValue(v1)), Field(n2, ScalarValue(v2)),
                       Field(n3, ScalarValue(v3)), Field(n4, ScalarValue(v4))];
            && FaithfulFields(fs) && FieldsDepth(fs) == 0
            && |FieldsBytes(fs)| == 10 + |n0| + |n1| + |n2| + |n3| + |n4| + |ScalarBytes(v0)|
                                    + |ScalarBytes(v1)| + |ScalarBytes(v2)| + |ScalarBytes(v3)| + |ScalarBytes(v4)|
  {
    hide FaithfulFields, FieldsDepth, FieldsBytes, NulFree, Representable, ScalarBytes;
    var f0, f1, f2 := Field(n0, ScalarValue(v0)), Field(n1, ScalarValue(v1)), Field(n2, ScalarValue(v2));
    var f3, f4 := Field(n3, ScalarValue(v3)), Field(n4, ScalarValue(v4));
    FourFields(n1, v1, n2, v2, n3, v3, n4, v4);
    ScalarFieldCons(n0, v0, [f1, f2, f3, f4]);
    assert [f0, f1, f2, f3, f4] == [f0] + [f1, f2, f3, f4];
  }

  lemma FourAreRead(a: Str, va: Scalar, b: Str, vb: Scalar, c: Str, vc: Scalar, d: Str, vd: Scalar)
    requires NulFree(a) && NulFree(b) && NulFree(c) && NulFree(d)
    requires |a| != |b| && |a| != |c| && |a| != |d| && |b| != |c| && |b| != |d| && |c| != |d|
    requires Representable(va) && Representable(vb) && Representable(vc) && Representable(vd)
    requires |DocumentBytes([Field(a, ScalarValue(va)), Field(b, ScalarValue(vb)),
                             Field(c, ScalarValue(vc)), Field(d, ScalarValue(vd))])| <= U32_MAX
    ensures HasFields(DocumentBytes([Field(a, ScalarValue(va)), Field(b, ScalarValue(vb)),
                                     Field(c, ScalarValue(vc)), Field(d, ScalarValue(vd))]),
                      [a, b, c, d], [va, vb, vc, vd])
  {
    hide DocumentBytes, ScalarFields, NulFree, Representable, HasFields;
    assert ScalarFields([a, b, c, d], [va, vb, vc, vd]) ==
           [Field(a, ScalarValue(va)), Field(b, ScalarValue(vb)), Field(c, ScalarValue(vc)), Field(d, ScalarValue(vd))];
    FlatIsRead([a, b, c, d], [va, vb, vc, vd]);
  }

  lemma FiveAreRead(a: Str, va: Scalar, b: Str, vb: Scalar, c: Str, vc: Scalar, d: Str, vd: Scalar, e: Str, ve: Scalar)
    requires NulFree(a) && NulFree(b) && NulFree(c) && NulFree(d) && NulFree(e)
    requires |a| != |b| && |a| != |c| && |a| != |d| && |b| != |c| && |b| != |d| && |c| != |d|
    requires |a| != |e| && |b| != |e| && |c| != |e| && |d| != |e|
    requires Representable(va) && Representable(vb) && Representable(vc) && Representable(vd) && Representable(ve)
    requires |DocumentBytes([Field(a, ScalarValue(va)), Field(b, ScalarValue(vb)), Field(c, ScalarValue(vc)),
                             Field(d, ScalarValue(vd)), Field(e, ScalarValue(ve))])| <= U32_MAX
    ensures HasFields(DocumentBytes([Field(a, ScalarValue(va)), Field(b, ScalarValue(vb)), Field(c, ScalarValue(vc)),
                                     Field(d, ScalarValue(vd)), Field(e, ScalarValue(ve))]),
                      [a, b, c, d, e], [va, vb, vc, vd, ve])
  {
    hide DocumentBytes, ScalarFields, NulFree, Representable, HasFields;
    assert ScalarFields([a, b, c, d, e], [va, vb, vc, vd, ve]) ==
           [Field(a, ScalarValue(va)), Field(b, ScalarValue(vb)), Field(c, ScalarValue(vc)),
            Field(d, ScalarValue(vd)), Field(e, ScalarValue(ve))];
    FlatIsRead([a, b, c, d, e], [va, vb, vc, vd, ve]);
  }
}
