/** UTF-8 validity against the encoding of Unicode scalar values (section 3 of
    RFC 3629). */
module Utf8Reference {
  import opened Bytes
  import opened Text

  predicate ScalarValue(c: int) {
    0 <= c < 0xD800 || 0xE000 <= c <= 0x10_FFFF
  }

  /** The bytes of one scalar value. */
  function CharBytes(c: int): bytes
    requires ScalarValue(c)
  {
    if c < 0x80 then [c]
    else if c < 0x800 then [0xC0 + c / 64, 0x80 + c % 64]
    else if c < 0x1_0000 then [0xE0 + c / 4096, 0x80 + c / 64 % 64, 0x80 + c % 64]
    else [0xF0 + c / 0x4_0000, 0x80 + c / 4096 % 64, 0x80 + c / 64 % 64, 0x80 + c % 64]
  }

  predicate AllScalarValues(cs: seq<int>) {
    forall i :: 0 <= i < |cs| ==> ScalarValue(cs[i])
  }

  function TextBytes(cs: seq<int>): bytes
    requires AllScalarValues(cs)
  {
    if cs == [] then [] else CharBytes(cs[0]) + TextBytes(cs[1..])
  }

  lemma CharIsRead(c: int, rest: bytes)
    requires ScalarValue(c)
    ensures CharLen(CharBytes(c) + rest) == |CharBytes(c)|
  {
    var b := CharBytes(c) + rest;
    assert b[..|CharBytes(c)|] == CharBytes(c);
    assert forall i :: 0 <= i < |CharBytes(c)| ==> b[i] == CharBytes(c)[i];
  }

  function Less(b: byte, base: int): int {
    b as int - base
  }

  /** The scalar value of a leading character. */
  function CodePoint(b: bytes): int
    requires CharLen(b) > 0
  {
    match CharLen(b)
    case 1 => b[0] as int
    case 2 => Less(b[0], 0xC0) * 64 + Less(b[1], 0x80)
    case 3 => (Less(b[0], 0xE0) * 64 + Less(b[1], 0x80)) * 64 + Less(b[2], 0x80)
    case _ => ((Less(b[0], 0xF0) * 64 + Less(b[1], 0x80)) * 64 + Less(b[2], 0x80)) * 64 + Less(b[3], 0x80)
  }

  lemma Digits(q: int, r: int)
    requires 0 <= r < 64
    ensures (q * 64 + r) / 64 == q && (q * 64 + r) % 64 == r
  {
  }

  lemma Quotients(c: int)
    ensures c / 4096 == c / 64 / 64 && c / 0x4_0000 == c / 64 / 64 / 64
  {
  }

  /** Base-64 digits of a number of up to four. */
  lemma DigitsOf(x: int, y: int, z: int, w: int)
    requires 0 <= y < 64 && 0 <= z < 64 && 0 <= w < 64
    ensures var c := ((x * 64 + y) * 64 + z) * 64 + w;
            c % 64 == w && c / 64 % 64 == z && c / 4096 % 64 == y && c / 0x4_0000 == x && c / 4096 == x * 64 + y
            && c / 64 == (x * 64 + y) * 64 + z
  {
    var high := x * 64 + y;
    var middle := high * 64 + z;
    Quotients(middle * 64 + w);
    Digits(middle, w);
    Digits(high, z);
    Digits(x, y);
  }

  lemma CharIsCode(b: bytes)
    requires CharLen(b) > 0
    ensures ScalarValue(CodePoint(b)) && CharBytes(CodePoint(b)) == b[..CharLen(b)]
  {
    if CharLen(b) == 2 {
      DigitsOf(0, 0, Less(b[0], 0xC0), Less(b[1], 0x80));
    } else if CharLen(b) == 3 {
      LongChar(b);
    } else if CharLen(b) == 4 {
      LongestChar(b);
    }
  }

  lemma LongChar(b: bytes)
    requires CharLen(b) == 3
    ensures ScalarValue(CodePoint(b)) && CharBytes(CodePoint(b)) == b[..3]
  {
    DigitsOf(0, Less(b[0], 0xE0), Less(b[1], 0x80), Less(b[2], 0x80));
    assert 0x800 <= CodePoint(b) < 0x1_0000;
  }

  lemma LongestChar(b: bytes)
    requires CharLen(b) == 4
    ensures ScalarValue(CodePoint(b)) && CharBytes(CodePoint(b)) == b[..4]
  {
    DigitsOf(Less(b[0], 0xF0), Less(b[1], 0x80), Less(b[2], 0x80), Less(b[3], 0x80));
    assert 0x1_0000 <= CodePoint(b) <= 0x10_FFFF;
  }

  lemma {:induction false} CodePoints(b: bytes) returns (cs: seq<int>)
    requires ValidUtf8(b)
    ensures AllScalarValues(cs) && TextBytes(cs) == b
  {
    hide CharBytes, CodePoint;
    if b == [] {
      cs := [];
    } else {
      var n := CharLen(b);
      CharIsCode(b);
      var rest := CodePoints(b[n..]);
      cs := [CodePoint(b)] + rest;
      assert cs[1..] == rest;
      assert b == b[..n] + b[n..];
    }
  }

  lemma {:induction false} TextIsValid(cs: seq<int>)
    requires AllScalarValues(cs)
    ensures ValidUtf8(TextBytes(cs))
  {
    hide CharBytes, CharLen;
    if cs != [] {
      var c, rest := CharBytes(cs[0]), TextBytes(cs[1..]);
      TextIsValid(cs[1..]);
      CharIsRead(cs[0], rest);
      CharIsNotEmpty(cs[0]);
      assert (c + rest)[|c|..] == rest;
    }
  }

  lemma CharIsNotEmpty(c: int)
    requires ScalarValue(c)
    ensures |CharBytes(c)| >= 1
  {
  }

  /** A byte string is accepted as text exactly when it is the encoding of a
      sequence of Unicode scalar values. */
  lemma ValidIff(b: bytes)
    ensures ValidUtf8(b) <==> exists cs :: AllScalarValues(cs) && TextBytes(cs) == b
  {
    hide ValidUtf8, TextBytes;
    if ValidUtf8(b) {
      var cs := CodePoints(b);
    }
    if cs :| AllScalarValues(cs) && TextBytes(cs) == b {
      TextIsValid(cs);
    }
  }
}
