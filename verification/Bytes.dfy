/** Bytes, fixed-width little-endian integers and the slice facts the codecs use
    (mongo_common/src/io.rs). */
module Bytes {

  type byte = x: int | 0 <= x < 256
  type bytes = seq<byte>
  type u32 = x: int | 0 <= x < 0x1_0000_0000
  type i32 = x: int | -0x8000_0000 <= x < 0x8000_0000
  type i64 = x: int | -0x8000_0000_0000_0000 <= x < 0x8000_0000_0000_0000

  const I32_MAX := 0x7FFF_FFFF
  const U32_MAX := 0xFFFF_FFFF

  /** The largest message the stack accepts (mongo_common/src/consts.rs). */
  const MAX_MSG_LEN := 48_000_000

  datatype Option<+T> = None | Some(value: T)

  datatype Result<+T, +E> = Ok(value: T) | Err(error: E) {
    predicate IsFailure() {
      Err?
    }

    function PropagateFailure<U>(): Result<U, E>
      requires Err?
    {
      Err(error)
    }

    function Extract(): T
      requires Ok?
    {
      value
    }
  }

  // ------------------------------------------------------------ integers

  /** The four little-endian bytes of `v`, signed or unsigned: the low 32 bits
      of its two's complement representation. */
  function LE32(v: int): (b: bytes)
    ensures |b| == 4
  {
    [v % 256, v / 0x100 % 256, v / 0x1_0000 % 256, v / 0x100_0000 % 256]
  }

  /** The unsigned 32-bit number in the first four bytes. */
  function U32(b: bytes): (v: u32)
    requires |b| >= 4
  {
    b[0] as int + 0x100 * (b[1] as int) + 0x1_0000 * (b[2] as int) + 0x100_0000 * (b[3] as int)
  }

  /** The signed 32-bit number in the first four bytes. */
  function I32(b: bytes): (v: i32)
    requires |b| >= 4
  {
    if U32(b) <= I32_MAX then U32(b) else U32(b) - 0x1_0000_0000
  }

  function LE64(v: int): (b: bytes)
    ensures |b| == 8
  {
    LE32(v) + LE32(v / 0x1_0000_0000)
  }

  function I64(b: bytes): (v: i64)
    requires |b| >= 8
  {
    U32(b) + 0x1_0000_0000 * I32(b[4..])
  }

  lemma LE32Value(v: int, rest: bytes)
    ensures U32(LE32(v) + rest) == v % 0x1_0000_0000
  {
    var b := LE32(v) + rest;
    assert b[0] == v % 256 && b[1] == v / 0x100 % 256 && b[2] == v / 0x1_0000 % 256 && b[3] == v / 0x100_0000 % 256;
    LowBytes(v);
  }

  lemma LE32RoundTrip(v: int, rest: bytes)
    ensures 0 <= v <= U32_MAX ==> U32(LE32(v) + rest) == v
    ensures -0x8000_0000 <= v <= I32_MAX ==> I32(LE32(v) + rest) == v
    ensures U32(LE32(v) + rest) == v % 0x1_0000_0000
  {
    hide LE32, U32;
    LE32Value(v, rest);
  }

  lemma LowBytes(v: int)
    ensures v % 256 + 0x100 * (v / 0x100 % 256) + 0x1_0000 * (v / 0x1_0000 % 256) + 0x100_0000 * (v / 0x100_0000 % 256)
         == v % 0x1_0000_0000
  {
    var q1 := v / 0x100;
    var q2 := v / 0x1_0000;
    var q3 := v / 0x100_0000;
    assert q2 == q1 / 256 && q3 == q2 / 256 && v / 0x1_0000_0000 == q3 / 256;
  }

  /** Reading four bytes and writing the number back gives the same bytes. */
  lemma LE32OfU32(b: bytes)
    requires |b| >= 4
    ensures LE32(U32(b)) == b[..4]
    ensures LE32(I32(b)) == b[..4]
  {
    LE32Digits(b[0], b[1], b[2], b[3]);
    LE32Shift(U32(b), -1);
    assert b[..4] == [b[0], b[1], b[2], b[3]];
  }

  lemma LE32Digits(b0: byte, b1: byte, b2: byte, b3: byte)
    ensures LE32(b0 as int + 0x100 * (b1 as int) + 0x1_0000 * (b2 as int) + 0x100_0000 * (b3 as int)) ==
            [b0, b1, b2, b3]
  {
    var d0: int, d1: int, d2: int, d3: int := b0, b1, b2, b3;
    var v := d0 + 0x100 * d1 + 0x1_0000 * d2 + 0x100_0000 * d3;
    assert v / 0x100 == d1 + 0x100 * d2 + 0x1_0000 * d3;
    assert v / 0x1_0000 == d2 + 0x100 * d3;
    assert v / 0x100_0000 == d3;
    ModShift(d0, d1 + 0x100 * d2 + 0x1_0000 * d3);
    ModShift(d1, d2 + 0x100 * d3);
    ModShift(d2, d3);
  }

  lemma ModShift(a: int, m: int)
    ensures (a + 256 * m) % 256 == a % 256
  {
  }

  /** Only the low 32 bits matter. */
  lemma LE32Shift(v: int, k: int)
    ensures LE32(v + 0x1_0000_0000 * k) == LE32(v)
  {
    var w := v + 0x1_0000_0000 * k;
    assert w == v + 256 * (0x100_0000 * k);
    assert w / 0x100 == v / 0x100 + 256 * (0x1_0000 * k);
    assert w / 0x1_0000 == v / 0x1_0000 + 256 * (0x100 * k);
    assert w / 0x100_0000 == v / 0x100_0000 + 256 * k;
    ModShift(v, 0x100_0000 * k);
    ModShift(v / 0x100, 0x1_0000 * k);
    ModShift(v / 0x1_0000, 0x100 * k);
    ModShift(v / 0x100_0000, k);
  }

  lemma LE64RoundTrip(v: int, rest: bytes)
    requires -0x8000_0000_0000_0000 <= v < 0x8000_0000_0000_0000
    ensures I64(LE64(v) + rest) == v
  {
    var b := LE64(v) + rest;
    var hi := v / 0x1_0000_0000;
    assert b == LE32(v) + (LE32(hi) + rest);
    assert b[4..] == LE32(hi) + rest;
    LE32RoundTrip(v, LE32(hi) + rest);
    LE32RoundTrip(hi, rest);
  }

  lemma LE64OfI64(b: bytes)
    requires |b| >= 8
    ensures LE64(I64(b)) == b[..8]
  {
    var v := I64(b);
    LE32OfU32(b);
    LE32OfU32(b[4..]);
    assert v / 0x1_0000_0000 == I32(b[4..]);
    LE32Shift(U32(b), I32(b[4..]));
    assert b[..8] == b[..4] + b[4..][..4];
  }

  // ------------------------------------------------------------ slices

  lemma SliceOfSlice(s: bytes, a: nat, b: nat, i: nat, j: nat)
    requires a <= b <= |s| && i <= j <= b - a
    ensures s[a..b][i..j] == s[a + i..a + j]
  {
    var l, r := s[a..b][i..j], s[a + i..a + j];
    assert |l| == |r|;
    assert forall k :: 0 <= k < |r| ==> l[k] == r[k];
  }

  lemma DropOfSlice(s: bytes, a: nat, b: nat, i: nat)
    requires a <= b <= |s| && i <= b - a
    ensures s[a..b][i..] == s[a + i..b]
  {
    var l, r := s[a..b][i..], s[a + i..b];
    assert |l| == |r|;
    assert forall k :: 0 <= k < |r| ==> l[k] == r[k];
  }

  // ------------------------------------------------------------ collecting loops

  /** The outcome of a loop that has collected `done` so far. */
  function Prepend<T, E>(done: seq<T>, r: Result<seq<T>, E>): Result<seq<T>, E> {
    if r.Ok? then Ok(done + r.value) else r
  }

  lemma PrependNothing<T, E>(a: seq<T>, r: Result<seq<T>, E>)
    ensures Prepend([], r) == r && Prepend<T, E>(a, Ok([])) == Ok(a)
  {
    if r.Ok? {
      assert [] + r.value == r.value;
    }
    assert a + [] == a;
  }

  lemma PrependTwice<T, E>(a: seq<T>, b: seq<T>, r: Result<seq<T>, E>)
    ensures Prepend(a, Prepend(b, r)) == Prepend(a + b, r)
  {
    if r.Ok? {
      assert a + (b + r.value) == a + b + r.value;
    }
  }
}
