/** Standard base64 with padding: the encoder of wirebson/src/encode.rs and the
    strict decoder the SCRAM code relies on (section 4 of RFC 4648, padding
    required and unused bits zero). */
module Base64 {
  import opened Bytes

  const COMMA: byte := 44
  const PAD: byte := 61

  type sextet = x: int | 0 <= x < 64

  function Symbol(v: sextet): byte {
    if v < 26 then 65 + v
    else if v < 52 then 71 + v
    else if v < 62 then v - 4
    else if v == 62 then 43 else 47
  }

  function Index(c: byte): Option<sextet> {
    if 65 <= c <= 90 then Some(c - 65)
    else if 97 <= c <= 122 then Some(c - 71)
    else if 48 <= c <= 57 then Some(c + 4)
    else if c == 43 then Some(62)
    else if c == 47 then Some(63) else None
  }

  lemma IndexOfSymbol(v: sextet)
    ensures Index(Symbol(v)) == Some(v)
    ensures Symbol(v) != PAD && Symbol(v) != COMMA
  {
  }

  lemma SymbolOfIndex(c: byte)
    requires Index(c).Some?
    ensures Symbol(Index(c).value) == c
  {
  }

  /** The 24 bits of three bytes as four sextets. */
  function Sextets(a: byte, b: byte, c: byte): (s: (sextet, sextet, sextet, sextet)) {
    (a / 4, a % 4 * 16 + b / 16, b % 16 * 4 + c / 64, c % 64)
  }

  /** The three bytes four sextets spell. */
  function Octets(s: (sextet, sextet, sextet, sextet)): (o: (byte, byte, byte)) {
    (s.0 * 4 + s.1 / 16, s.1 % 16 * 16 + s.2 / 4, s.2 % 4 * 64 + s.3)
  }

  lemma DivMod(q: int, r: int, k: int)
    requires k == 4 || k == 16 || k == 64 || k == 0x40 || k == 0x1000 || k == 0x4_0000
    requires 0 <= r < k
    ensures (q * k + r) / k == q && (q * k + r) % k == r
  {
  }

  lemma OctetsOfSextets(a: byte, b: byte, c: byte)
    ensures Octets(Sextets(a, b, c)) == (a, b, c)
  {
    DivMod(a % 4, b / 16, 16);
    DivMod(b % 16, c / 64, 4);
  }

  lemma SextetsOfOctets(s: (sextet, sextet, sextet, sextet))
    ensures var o := Octets(s); Sextets(o.0, o.1, o.2) == s
  {
    DivMod(s.0, s.1 / 16, 4);
    DivMod(s.1 % 16, s.2 / 4, 16);
    DivMod(s.2 % 4, s.3, 64);
  }

  /** One group of four characters for one to three bytes. */
  function Group(chunk: bytes): (g: bytes)
    requires 1 <= |chunk| <= 3
    ensures |g| == 4
  {
    var s := Sextets(chunk[0], if |chunk| > 1 then chunk[1] else 0, if |chunk| > 2 then chunk[2] else 0);
    [Symbol(s.0), Symbol(s.1), if |chunk| > 1 then Symbol(s.2) else PAD, if |chunk| > 2 then Symbol(s.3) else PAD]
  }

  function Encode(data: bytes): bytes {
    if data == [] then []
    else if |data| < 3 then Group(data)
    else Group(data[..3]) + Encode(data[3..])
  }

  /** The bytes of one group; only the last group may be padded. */
  function DecodeGroup(g: bytes, last: bool): Option<bytes>
    requires |g| == 4
  {
    var a, b := Index(g[0]), Index(g[1]);
    if a == None || b == None then None
    else if last && g[2] == PAD && g[3] == PAD then
      if b.value % 16 == 0 then Some([a.value * 4 + b.value / 16]) else None
    else
      var c := Index(g[2]);
      if c == None then None
      else if last && g[3] == PAD then
        if c.value % 4 == 0 then Some([a.value * 4 + b.value / 16, b.value % 16 * 16 + c.value / 4]) else None
      else
        var d := Index(g[3]);
        if d == None then None
        else
          var o := Octets((a.value, b.value, c.value, d.value));
          Some([o.0, o.1, o.2])
  }

  function Decode(text: bytes): Option<bytes> {
    if text == [] then Some([])
    else if |text| < 4 then None
    else
      var head := DecodeGroup(text[..4], |text| == 4);
      if head == None then None
      else
        var rest := Decode(text[4..]);
        if rest == None then None else Some(head.value + rest.value)
  }

  /** What the padded groups read back. */
  lemma SextetFacts(a: byte, b: byte, c: byte)
    ensures var s := Sextets(a, b, c);
            && s.0 * 4 + s.1 / 16 == a
            && s.1 % 16 * 16 + s.2 / 4 == b
            && (b == 0 ==> s.1 % 16 == 0)
            && (c == 0 ==> s.2 % 4 == 0)
  {
    DivMod(a % 4, b / 16, 16);
    DivMod(b % 16, c / 64, 4);
  }

  lemma DecodeGroupOf(chunk: bytes, last: bool)
    requires 1 <= |chunk| <= 3
    requires |chunk| < 3 ==> last
    ensures DecodeGroup(Group(chunk), last) == Some(chunk)
  {
    hide Sextets, Octets, Index, Symbol;
    var b, c := if |chunk| > 1 then chunk[1] else 0, if |chunk| > 2 then chunk[2] else 0;
    var s := Sextets(chunk[0], b, c);
    SextetFacts(chunk[0], b, c);
    IndexOfSymbol(s.0);
    IndexOfSymbol(s.1);
    IndexOfSymbol(s.2);
    IndexOfSymbol(s.3);
    OctetsOfSextets(chunk[0], b, c);
    assert chunk == if |chunk| == 1 then [chunk[0]] else if |chunk| == 2 then [chunk[0], b] else [chunk[0], b, c];
  }

  /** Decoding undoes encoding. */
  lemma {:induction false} DecodeOfEncode(data: bytes)
    ensures Decode(Encode(data)) == Some(data)
  {
    hide Group, DecodeGroup;
    if data == [] {
    } else if |data| < 3 {
      DecodeGroupOf(data, true);
      assert Group(data)[..4] == Group(data) && Group(data)[4..] == [];
      assert Decode(Group(data)[4..]) == Some([]);
      assert data + [] == data;
    } else {
      DecodeOfEncode(data[3..]);
      EncodeEmpty(data[3..]);
      DecodeGroupOf(data[..3], Encode(data[3..]) == []);
      var text := Encode(data);
      assert text[..4] == Group(data[..3]) && text[4..] == Encode(data[3..]);
      assert data == data[..3] + data[3..];
    }
  }

  lemma EncodeEmpty(data: bytes)
    ensures Encode(data) == [] <==> data == []
    ensures data != [] ==> |Encode(data)| >= 4
  {
  }

  lemma PaddingHasNoIndex()
    ensures Index(PAD) == None
  {
  }

  lemma PaddedOnce(a: sextet, b: sextet, c: sextet)
    ensures c % 4 == 0 ==> var s := Sextets(a * 4 + b / 16, b % 16 * 16 + c / 4, 0); s.0 == a && s.1 == b && s.2 == c
    ensures b % 16 == 0 ==> var s := Sextets(a * 4 + b / 16, 0, 0); s.0 == a && s.1 == b
  {
    DivMod(a, b / 16, 4);
    DivMod(b % 16, c / 4, 16);
  }

  lemma GroupOfDecode(g: bytes, last: bool)
    requires |g| == 4 && DecodeGroup(g, last).Some?
    ensures var chunk := DecodeGroup(g, last).value;
            1 <= |chunk| <= 3 && (!last ==> |chunk| == 3) && Group(chunk) == g
  {
    hide Sextets, Octets, Index, Symbol;
    SymbolOfIndex(g[0]);
    SymbolOfIndex(g[1]);
    PaddingHasNoIndex();
    var a, b := Index(g[0]).value, Index(g[1]).value;
    if last && g[2] == PAD && g[3] == PAD {
      PaddedOnce(a, b, 0);
    } else {
      SymbolOfIndex(g[2]);
      var c := Index(g[2]).value;
      if last && g[3] == PAD {
        PaddedOnce(a, b, c);
      } else {
        SymbolOfIndex(g[3]);
        SextetsOfOctets((a, b, c, Index(g[3]).value));
      }
    }
  }

  /** The decoder accepts only what the encoder writes. */
  lemma {:induction false} EncodeOfDecode(text: bytes)
    requires Decode(text).Some?
    ensures Encode(Decode(text).value) == text
  {
    hide Group, DecodeGroup;
    if text != [] {
      var last := |text| == 4;
      var chunk := DecodeGroup(text[..4], last).value;
      GroupOfDecode(text[..4], last);
      EncodeOfDecode(text[4..]);
      var rest := Decode(text[4..]).value;
      assert text == text[..4] + text[4..];
      if last {
        assert text[4..] == [] && rest == [];
        assert chunk + rest == chunk;
        if |chunk| == 3 {
          assert chunk[..3] == chunk && chunk[3..] == [];
        }
      } else {
        assert (chunk + rest)[..3] == chunk && (chunk + rest)[3..] == rest;
      }
    }
  }

  /** The encoding is ASCII without commas, so it can stand as one attribute of
      a comma-separated message. */
  lemma {:induction false} EncodeIsPlain(data: bytes)
    ensures COMMA !in Encode(data)
    ensures forall c :: c in Encode(data) ==> c <= 0x7F
  {
    if |data| >= 3 {
      EncodeIsPlain(data[3..]);
    }
  }

  lemma {:induction false} EncodeLength(data: bytes)
    ensures |Encode(data)| == (|data| + 2) / 3 * 4
  {
    hide Group;
    if |data| >= 3 {
      EncodeLength(data[3..]);
    }
  }

  // ------------------------------------------------------------ the loop

  /** The 24-bit word of three bytes. */
  function Word(a: byte, b: byte, c: byte): int {
    (a as int) * 0x1_0000 + (b as int) * 0x100 + (c as int)
  }

  lemma WordQuotients(x: byte, y: byte, z: byte)
    ensures var n := Word(x, y, z);
            && n / 0x4_0000 == x / 4
            && n / 0x1000 == (x as int) * 16 + y / 16
            && n / 0x40 == (x as int) * 1024 + (y as int) * 4 + z / 64
            && n % 0x40 == z % 64
  {
    DivMod(x / 4, (x % 4) * 0x1_0000 + (y as int) * 0x100 + z, 0x4_0000);
    DivMod((x as int) * 16 + y / 16, (y % 16) * 0x100 + z, 0x1000);
    DivMod((x as int) * 1024 + (y as int) * 4 + z / 64, z % 64, 0x40);
  }

  lemma SextetsOfWord(a: byte, b: byte, c: byte)
    ensures var n := Word(a, b, c);
            (n / 0x4_0000 % 64, n / 0x1000 % 64, n / 0x40 % 64, n % 64) == Sextets(a, b, c)
  {
    hide Word;
    WordQuotients(a, b, c);
    DivMod(0, a / 4, 64);
    DivMod(a / 4, a % 4 * 16 + b / 16, 64);
    DivMod((a as int) * 16 + b / 16, b % 16 * 4 + c / 64, 64);
  }

  lemma {:induction false} EncodeAppend(front: bytes, chunk: bytes)
    requires |front| % 3 == 0 && 1 <= |chunk| <= 3
    ensures Encode(front + chunk) == Encode(front) + Group(chunk)
  {
    hide Group;
    if front == [] {
      assert front + chunk == chunk;
      if |chunk| == 3 {
        assert chunk[..3] == chunk && chunk[3..] == [];
      }
    } else {
      var all := front + chunk;
      assert all[..3] == front[..3] && all[3..] == front[3..] + chunk;
      EncodeAppend(front[3..], chunk);
    }
  }

  /** `base64`: one 24-bit word per chunk of three bytes, cut into sextets. */
  method EncodeChunks(data: bytes) returns (s: bytes)
    ensures s == Encode(data)
  {
    hide Group, Encode;
    s := [];
    var i := 0;
    assert data[..0] == [];
    assert s == Encode(data[..0]) by {
      EncodeEmpty(data[..0]);
    }
    while i < |data|
      invariant 0 <= i <= |data|
      invariant i % 3 == 0 || i == |data|
      invariant s == Encode(data[..i])
    {
      var size := if |data| - i < 3 then |data| - i else 3;
      var group := EncodeChunk(data[i..i + size]);
      EncodeAppend(data[..i], data[i..i + size]);
      assert data[..i] + data[i..i + size] == data[..i + size];
      s := s + group;
      i := i + size;
    }
    assert data[..i] == data;
  }

  method EncodeChunk(chunk: bytes) returns (group: bytes)
    requires 1 <= |chunk| <= 3
    ensures group == Group(chunk)
  {
    var b0 := chunk[0];
    var b1 := if |chunk| > 1 then chunk[1] else 0;
    var b2 := if |chunk| > 2 then chunk[2] else 0;
    var n := Word(b0, b1, b2);
    SextetsOfWord(b0, b1, b2);
    group := [Symbol(n / 0x4_0000 % 64), Symbol(n / 0x1000 % 64)];
    group := group + [if |chunk| > 1 then Symbol(n / 0x40 % 64) else PAD];
    group := group + [if |chunk| > 2 then Symbol(n % 64) else PAD];
  }
}
