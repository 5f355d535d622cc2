/** UTF-8 validity, NUL-terminated strings and decimal numerals. Every Rust
    string is modelled by its UTF-8 bytes. */
module Text {
  import opened Bytes

  // ------------------------------------------------------------ UTF-8

  predicate Continuation(b: byte) {
    0x80 <= b <= 0xBF
  }

  /** The number of bytes of the Unicode scalar value at the front of `b`, or 0
      when there is none (the table of section 3.9 of the Unicode standard). */
  function CharLen(b: bytes): (n: nat)
    ensures n <= |b|
  {
    if |b| >= 1 && b[0] <= 0x7F then 1
    else if |b| >= 2 && 0xC2 <= b[0] <= 0xDF && Continuation(b[1]) then 2
    else if |b| >= 3 && 0xE0 <= b[0] <= 0xEF && Continuation(b[1]) && Continuation(b[2])
            && (b[0] == 0xE0 ==> b[1] >= 0xA0) && (b[0] == 0xED ==> b[1] <= 0x9F) then 3
    else if |b| >= 4 && 0xF0 <= b[0] <= 0xF4 && Continuation(b[1]) && Continuation(b[2]) && Continuation(b[3])
            && (b[0] == 0xF0 ==> b[1] >= 0x90) && (b[0] == 0xF4 ==> b[1] <= 0x8F) then 4
    else 0
  }

  predicate ValidUtf8(b: bytes) {
    b == [] || (CharLen(b) > 0 && ValidUtf8(b[CharLen(b)..]))
  }

  type Str = s: bytes | ValidUtf8(s) witness []

  lemma {:induction false} AsciiIsUtf8(b: bytes)
    requires forall i :: 0 <= i < |b| ==> b[i] <= 0x7F
    ensures ValidUtf8(b)
  {
    if b != [] {
      AsciiIsUtf8(b[1..]);
    }
  }

  /** The bytes of a printable ASCII literal. */
  function Ascii(s: string): (t: Str)
    requires forall i :: 0 <= i < |s| ==> ' ' <= s[i] <= '~'
    ensures |t| == |s| && NulFree(t)
  {
    var t: bytes := seq(|s|, i requires 0 <= i < |s| => s[i] as int);
    AsciiIsUtf8(t);
    t
  }

  lemma AsciiIs(s: string, b: bytes)
    requires |s| == |b| && forall i :: 0 <= i < |s| ==> ' ' <= s[i] <= '~' && b[i] == s[i] as int
    ensures Ascii(s) == b
  {
  }

  lemma {:induction false} Utf8Append(a: bytes, b: bytes)
    requires ValidUtf8(a) && ValidUtf8(b)
    ensures ValidUtf8(a + b)
  {
    if a == [] {
      assert a + b == b;
    } else {
      var n := CharLen(a);
      assert CharLen(a + b) == n;
      assert (a + b)[n..] == a[n..] + b;
      Utf8Append(a[n..], b);
    }
  }

  // ------------------------------------------------------------ NUL search

  predicate NulFree(b: bytes) {
    0 !in b
  }

  /** The index of the first NUL byte, or `|b|` when there is none. */
  function FindNul(b: bytes): (i: nat)
    ensures i <= |b|
    ensures NulFree(b[..i])
    ensures i < |b| ==> b[i] == 0
  {
    if b == [] || b[0] == 0 then 0
    else
      var i := 1 + FindNul(b[1..]);
      assert b[..i] == [b[0]] + b[1..][..i - 1];
      i
  }

  lemma {:induction false} FindNulAfter(s: bytes, rest: bytes)
    requires NulFree(s)
    ensures FindNul(s + [0] + rest) == |s|
  {
    var b := s + [0] + rest;
    if s == [] {
      assert b[0] == 0;
    } else {
      assert b[1..] == s[1..] + [0] + rest;
      FindNulAfter(s[1..], rest);
    }
  }

  // ------------------------------------------------------------ decimal

  /** The decimal numeral of `n` in ASCII. */
  function Decimal(n: nat): (d: Str)
    ensures d != []
    ensures forall i :: 0 <= i < |d| ==> 48 <= d[i] <= 57
  {
    var d: bytes := if n < 10 then [48 + n] else Decimal(n / 10) + [48 + n % 10];
    AsciiIsUtf8(d);
    d
  }

  lemma DecimalNulFree(n: nat)
    ensures NulFree(Decimal(n))
  {
  }

  function Pow10(k: nat): (p: nat)
    ensures p >= 1
  {
    if k == 0 then 1 else 10 * Pow10(k - 1)
  }

  lemma {:induction false} DecimalLength(n: nat, k: nat)
    requires k >= 1 && n < Pow10(k)
    ensures |Decimal(n)| <= k
  {
    assert Pow10(1) == 10;
    if n >= 10 {
      DecimalLength(n / 10, k - 1);
    }
  }
}
