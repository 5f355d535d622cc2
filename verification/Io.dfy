/** Cursor-style reads from a byte slice (mongo_common/src/io.rs). A cursor is
    the slice still to be read; a read returns what it took and the new cursor,
    and fails without moving it. */
module Io {
  import opened Bytes
  import opened Text

  datatype ReadError = ShortInput(needed: nat, got: nat)

  type Read<+T> = Result<(T, bytes), ReadError>

  function ReadBytes(r: bytes, n: nat): Read<bytes> {
    if |r| < n then Err(ShortInput(n, |r|)) else Ok((r[..n], r[n..]))
  }

  function ReadU8(r: bytes): Read<byte> {
    var (b, r') :- ReadBytes(r, 1);
    Ok((b[0], r'))
  }

  function ReadU32(r: bytes): Read<u32> {
    var (b, r') :- ReadBytes(r, 4);
    Ok((U32(b), r'))
  }

  function ReadI32(r: bytes): Read<i32> {
    var (b, r') :- ReadBytes(r, 4);
    Ok((I32(b), r'))
  }

  function ReadI64(r: bytes): Read<i64> {
    var (b, r') :- ReadBytes(r, 8);
    Ok((I64(b), r'))
  }

  function ReadCString(r: bytes): Read<bytes> {
    var i := FindNul(r);
    if i == |r| then Err(ShortInput(|r| + 1, |r|)) else Ok((r[..i], r[i + 1..]))
  }

  // ------------------------------------------- reading back what was written

  lemma ReadBytesOf(b: bytes, rest: bytes)
    ensures ReadBytes(b + rest, |b|) == Ok((b, rest))
  {
  }

  lemma ReadU32Of(v: int, rest: bytes)
    requires 0 <= v <= U32_MAX
    ensures ReadU32(LE32(v) + rest) == Ok((v, rest))
  {
    ReadBytesOf(LE32(v), rest);
    LE32RoundTrip(v, []);
    assert LE32(v) + [] == LE32(v);
  }

  lemma ReadI32Of(v: i32, rest: bytes)
    ensures ReadI32(LE32(v) + rest) == Ok((v, rest))
  {
    ReadBytesOf(LE32(v), rest);
    LE32RoundTrip(v, []);
    assert LE32(v) + [] == LE32(v);
  }

  lemma ReadI64Of(v: i64, rest: bytes)
    ensures ReadI64(LE64(v) + rest) == Ok((v, rest))
  {
    ReadBytesOf(LE64(v), rest);
    LE64RoundTrip(v, []);
    assert LE64(v) + [] == LE64(v);
  }

  lemma ReadCStringOf(s: bytes, rest: bytes)
    requires NulFree(s)
    ensures ReadCString(s + [0] + rest) == Ok((s, rest))
  {
    FindNulAfter(s, rest);
    var b := s + [0] + rest;
    assert b[..|s|] == s && b[|s| + 1..] == rest;
  }

  // ------------------------------------------- what a successful read took

  lemma ReadU32Exact(r: bytes)
    requires ReadU32(r).Ok?
    ensures r == LE32(ReadU32(r).value.0) + ReadU32(r).value.1
  {
    LE32OfU32(r[..4]);
    assert r[..4][..4] == r[..4];
  }

  lemma ReadI32Exact(r: bytes)
    requires ReadI32(r).Ok?
    ensures r == LE32(ReadI32(r).value.0) + ReadI32(r).value.1
  {
    LE32OfU32(r[..4]);
    assert r[..4][..4] == r[..4];
  }

  lemma ReadI64Exact(r: bytes)
    requires ReadI64(r).Ok?
    ensures r == LE64(ReadI64(r).value.0) + ReadI64(r).value.1
  {
    LE64OfI64(r[..8]);
    assert r[..8][..8] == r[..8];
  }

  lemma ReadCStringExact(r: bytes)
    requires ReadCString(r).Ok?
    ensures var (s, r') := ReadCString(r).value;
            NulFree(s) && r == s + [0] + r'
  {
  }
}
