/** The text layer of SCRAM messages: comma-separated `X=value` attributes,
    username escaping, iteration counts and XOR (mongo_common/src/auth/scram.rs;
    section 5.1 of RFC 5802). Messages are the UTF-8 bytes of the strings. */
module ScramText {
  import opened Bytes
  import opened Text
  import opened Base64

  const EQUALS: byte := 61

  // ------------------------------------------------------------ splitting

  predicate CommaFree(s: bytes) {
    COMMA !in s
  }

  /** The pieces between commas; the empty string has one empty piece. */
  function Split(s: bytes): (parts: seq<bytes>)
    ensures |parts| >= 1
  {
    if s == [] then [[]]
    else if s[0] == COMMA then [[]] + Split(s[1..])
    else
      var rest := Split(s[1..]);
      [[s[0]] + rest[0]] + rest[1..]
  }

  function Join(parts: seq<bytes>): bytes
    requires |parts| >= 1
  {
    if |parts| == 1 then parts[0] else parts[0] + ([COMMA] + Join(parts[1..]))
  }

  lemma {:induction false} JoinOfSplit(s: bytes)
    ensures Join(Split(s)) == s
  {
    if s != [] {
      JoinOfSplit(s[1..]);
      var rest := Split(s[1..]);
      assert s == [s[0]] + s[1..];
      if s[0] == COMMA {
        assert Split(s)[1..] == rest;
      } else {
        assert rest == [rest[0]] + rest[1..];
        assert Split(s)[1..] == rest[1..];
      }
    }
  }

  lemma {:induction false} SplitFirst(a: bytes, rest: bytes)
    requires CommaFree(a)
    ensures Split(a + ([COMMA] + rest)) == [a] + Split(rest)
  {
    var s := a + ([COMMA] + rest);
    if a == [] {
      assert s[1..] == rest;
    } else {
      assert s[1..] == a[1..] + ([COMMA] + rest);
      SplitFirst(a[1..], rest);
      assert [a[0]] + a[1..] == a;
    }
  }

  lemma {:induction false} SplitOne(a: bytes)
    requires CommaFree(a)
    ensures Split(a) == [a]
  {
    if a != [] {
      SplitOne(a[1..]);
      assert [a[0]] + a[1..] == a;
    }
  }

  lemma {:induction false} SplitOfJoin(parts: seq<bytes>)
    requires |parts| >= 1 && forall p :: p in parts ==> CommaFree(p)
    ensures Split(Join(parts)) == parts
  {
    if |parts| == 1 {
      SplitOne(parts[0]);
    } else {
      SplitOfJoin(parts[1..]);
      SplitFirst(parts[0], Join(parts[1..]));
    }
  }

  // ------------------------------------------------------------ attributes

  datatype Attribute = Attribute(key: bytes, value: bytes)

  function AttributeBytes(a: Attribute): bytes {
    a.key + ([EQUALS] + a.value)
  }

  /** One character, an equals sign, and the value. */
  function ParseAttribute(part: bytes): (a: Option<Attribute>)
    ensures a.Some? ==> AttributeBytes(a.value) == part
  {
    var n := CharLen(part);
    if n == 0 || |part| == n || part[n] != EQUALS then None
    else Some(Attribute(part[..n], part[n + 1..]))
  }

  function ParseParts(parts: seq<bytes>): (r: Option<seq<Attribute>>)
    ensures r.Some? ==> |r.value| == |parts|
  {
    if parts == [] then Some([])
    else
      var first := ParseAttribute(parts[0]);
      var rest := ParseParts(parts[1..]);
      if first == None || rest == None then None else Some([first.value] + rest.value)
  }

  function ParseAttributes(msg: bytes): (r: Option<seq<Attribute>>)
    ensures r.Some? ==> |r.value| >= 1
  {
    ParseParts(Split(msg))
  }

  /** `key=value` for a one-letter ASCII key. */
  function Letter(key: byte, value: bytes): bytes {
    [key] + ([EQUALS] + value)
  }

  lemma ParseLetter(key: byte, value: bytes)
    requires key <= 0x7F
    ensures ParseAttribute(Letter(key, value)) == Some(Attribute([key], value))
  {
    var part := Letter(key, value);
    assert part[..1] == [key] && part[2..] == value;
  }

  lemma LetterCommaFree(key: byte, value: bytes)
    requires key != COMMA && CommaFree(value)
    ensures CommaFree(Letter(key, value))
  {
  }

  lemma {:induction false} PartsOf(parts: seq<bytes>, i: nat)
    requires ParseParts(parts).Some? && i < |parts|
    ensures ParseAttribute(parts[i]) == Some(ParseParts(parts).value[i])
    ensures AttributeBytes(ParseParts(parts).value[i]) == parts[i]
  {
    if i > 0 {
      PartsOf(parts[1..], i - 1);
    }
  }

  /** The first value under a key. */
  function First(attrs: seq<Attribute>, key: byte): Option<bytes> {
    if attrs == [] then None
    else if attrs[0].key == [key] then Some(attrs[0].value)
    else First(attrs[1..], key)
  }

  // ------------------------------------------------------------ usernames

  /** Every leftmost non-overlapping occurrence of `pattern` replaced. */
  function Replace(s: bytes, pattern: bytes, to: bytes): bytes
    requires pattern != []
    decreases |s|
  {
    if |s| < |pattern| then s
    else if s[..|pattern|] == pattern then to + Replace(s[|pattern|..], pattern, to)
    else [s[0]] + Replace(s[1..], pattern, to)
  }

  const ESCAPED_EQUALS: bytes := [61, 51, 68]
  const ESCAPED_COMMA: bytes := [61, 50, 67]

  function Escape(name: bytes): bytes {
    Replace(Replace(name, [EQUALS], ESCAPED_EQUALS), [COMMA], ESCAPED_COMMA)
  }

  function Unescape(text: bytes): bytes {
    Replace(Replace(text, ESCAPED_COMMA, [COMMA]), ESCAPED_EQUALS, [EQUALS])
  }

  /** The escape of one byte. */
  function Token(b: byte): bytes {
    if b == EQUALS then ESCAPED_EQUALS else if b == COMMA then ESCAPED_COMMA else [b]
  }

  /** Byte-by-byte escaping: what the two passes compute together. */
  function Tokens(name: bytes): bytes {
    if name == [] then [] else Token(name[0]) + Tokens(name[1..])
  }

  lemma ReplaceHere(pattern: bytes, rest: bytes, to: bytes)
    requires pattern != []
    ensures Replace(pattern + rest, pattern, to) == to + Replace(rest, pattern, to)
  {
    var s := pattern + rest;
    assert s[..|pattern|] == pattern && s[|pattern|..] == rest;
  }

  lemma ReplaceSkip(b: byte, rest: bytes, pattern: bytes, to: bytes)
    requires pattern != []
    requires b != pattern[0] || (|pattern| > 1 && rest != [] && rest[0] != pattern[1])
    ensures Replace([b] + rest, pattern, to) == [b] + Replace(rest, pattern, to)
  {
    var s := [b] + rest;
    assert s[1..] == rest;
    if |s| >= |pattern| {
      assert s[..|pattern|] != pattern;
    }
  }

  lemma ReplaceEmpty(pattern: bytes, to: bytes)
    requires pattern != []
    ensures Replace([], pattern, to) == []
  {
  }

  lemma ReplaceSkipEquals(rest: bytes, pattern: bytes, to: bytes)
    requires pattern == [COMMA] || pattern == ESCAPED_COMMA
    ensures Replace(ESCAPED_EQUALS + rest, pattern, to) == ESCAPED_EQUALS + Replace(rest, pattern, to)
  {
    hide Replace;
    ReplaceSkip(68, rest, pattern, to);
    ReplaceSkip(51, [68] + rest, pattern, to);
    ReplaceSkip(61, [51] + ([68] + rest), pattern, to);
    assert ESCAPED_EQUALS + rest == [61] + ([51] + ([68] + rest));
    var tail := Replace(rest, pattern, to);
    assert ESCAPED_EQUALS + tail == [61] + ([51] + ([68] + tail));
  }

  lemma {:induction false} EscapeTokens(name: bytes)
    ensures Escape(name) == Tokens(name)
  {
    hide Replace;
    if name == [] {
      ReplaceEmpty([EQUALS], ESCAPED_EQUALS);
      ReplaceEmpty([COMMA], ESCAPED_COMMA);
    } else {
      var once := Replace(name[1..], [EQUALS], ESCAPED_EQUALS);
      EscapeTokens(name[1..]);
      assert name == [name[0]] + name[1..];
      if name[0] == EQUALS {
        ReplaceHere([EQUALS], name[1..], ESCAPED_EQUALS);
        ReplaceSkipEquals(once, [COMMA], ESCAPED_COMMA);
      } else {
        ReplaceSkip(name[0], name[1..], [EQUALS], ESCAPED_EQUALS);
        if name[0] == COMMA {
          ReplaceHere([COMMA], once, ESCAPED_COMMA);
        } else {
          ReplaceSkip(name[0], once, [COMMA], ESCAPED_COMMA);
        }
      }
    }
  }

  /** The escaped form has no comma, so it is the whole first attribute. */
  lemma {:induction false} EscapeIsCommaFree(name: bytes)
    ensures CommaFree(Escape(name))
  {
    EscapeTokens(name);
    if name != [] {
      EscapeTokens(name[1..]);
      EscapeIsCommaFree(name[1..]);
    }
  }

  /** The text between the two passes of `Unescape`: commas restored. */
  function Halfway(name: bytes): bytes {
    if name == [] then []
    else (if name[0] == EQUALS then ESCAPED_EQUALS else [name[0]]) + Halfway(name[1..])
  }

  lemma {:induction false} UnescapeCommas(name: bytes)
    ensures Replace(Tokens(name), ESCAPED_COMMA, [COMMA]) == Halfway(name)
  {
    hide Replace;
    if name == [] {
      ReplaceEmpty(ESCAPED_COMMA, [COMMA]);
    } else {
      var rest := Tokens(name[1..]);
      UnescapeCommas(name[1..]);
      if name[0] == COMMA {
        ReplaceHere(ESCAPED_COMMA, rest, [COMMA]);
      } else if name[0] == EQUALS {
        ReplaceSkipEquals(rest, ESCAPED_COMMA, [COMMA]);
      } else {
        ReplaceSkip(name[0], rest, ESCAPED_COMMA, [COMMA]);
      }
    }
  }

  lemma {:induction false} UnescapeEquals(name: bytes)
    ensures Replace(Halfway(name), ESCAPED_EQUALS, [EQUALS]) == name
  {
    if name != [] {
      var rest := Halfway(name[1..]);
      UnescapeEquals(name[1..]);
      assert name == [name[0]] + name[1..];
      if name[0] == EQUALS {
        ReplaceHere(ESCAPED_EQUALS, rest, [EQUALS]);
      } else {
        ReplaceSkip(name[0], rest, ESCAPED_EQUALS, [EQUALS]);
      }
    }
  }

  /** Unescaping undoes escaping for every name, also one that spells an escape
      sequence literally. */
  lemma UnescapeOfEscape(name: bytes)
    ensures Unescape(Escape(name)) == name
  {
    EscapeTokens(name);
    UnescapeCommas(name);
    UnescapeEquals(name);
  }

  // ------------------------------------------------------------ numerals

  predicate AllDigits(d: bytes) {
    forall i :: 0 <= i < |d| ==> 48 <= d[i] <= 57
  }

  function DigitsValue(d: bytes): nat
    requires AllDigits(d)
  {
    if d == [] then 0 else 10 * DigitsValue(d[..|d| - 1]) + (d[|d| - 1] - 48)
  }

  /** The unsigned 32-bit number a numeral spells; a leading plus is allowed. */
  function ParseU32(s: bytes): Option<u32> {
    var d := if s != [] && s[0] == 43 then s[1..] else s;
    if d == [] || !AllDigits(d) || DigitsValue(d) > U32_MAX then None else Some(DigitsValue(d))
  }

  lemma {:induction false} DigitsOfDecimal(n: nat)
    ensures DigitsValue(Decimal(n)) == n
  {
    if n >= 10 {
      DigitsOfDecimal(n / 10);
      assert Decimal(n)[..|Decimal(n)| - 1] == Decimal(n / 10);
    }
  }

  lemma ParseU32OfDecimal(n: u32)
    ensures ParseU32(Decimal(n)) == Some(n)
    ensures CommaFree(Decimal(n))
  {
    DigitsOfDecimal(n);
  }

  // ------------------------------------------------------------ XOR

  function XorBits(a: nat, b: nat, width: nat): nat {
    if width == 0 then 0 else (if a % 2 == b % 2 then 0 else 1) + 2 * XorBits(a / 2, b / 2, width - 1)
  }

  function Pow2(k: nat): nat {
    if k == 0 then 1 else 2 * Pow2(k - 1)
  }

  lemma {:induction false} XorBitsRange(a: nat, b: nat, width: nat)
    ensures XorBits(a, b, width) < Pow2(width)
  {
    if width > 0 {
      XorBitsRange(a / 2, b / 2, width - 1);
    }
  }

  lemma {:induction false} XorBitsTwice(a: nat, b: nat, width: nat)
    requires a < Pow2(width)
    ensures XorBits(XorBits(a, b, width), b, width) == a
  {
    if width > 0 {
      XorBitsTwice(a / 2, b / 2, width - 1);
      var x := XorBits(a, b, width);
      assert x / 2 == XorBits(a / 2, b / 2, width - 1);
    }
  }

  function XorByte(a: byte, b: byte): byte {
    XorBitsRange(a, b, 8);
    assert Pow2(8) == 2 * (2 * (2 * (2 * (2 * (2 * (2 * (2 * 1)))))));
    XorBits(a, b, 8)
  }

  /** Byte-wise XOR, as long as the shorter operand. */
  function Xor(a: bytes, b: bytes): (x: bytes)
    ensures |x| == if |a| <= |b| then |a| else |b|
  {
    if a == [] || b == [] then [] else [XorByte(a[0], b[0])] + Xor(a[1..], b[1..])
  }

  lemma {:induction false} XorTwice(a: bytes, b: bytes)
    requires |a| == |b|
    ensures Xor(Xor(a, b), b) == a
  {
    if a != [] {
      XorTwice(a[1..], b[1..]);
      assert Pow2(8) == 2 * (2 * (2 * (2 * (2 * (2 * (2 * (2 * 1)))))));
      XorBitsTwice(a[0], b[0], 8);
      assert Xor(a, b)[1..] == Xor(a[1..], b[1..]);
      assert a == [a[0]] + a[1..];
    }
  }
}
