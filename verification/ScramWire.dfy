/** The SCRAM messages and keys in literal text, the alphabet of base64, and XOR
    bit by bit (mongo_common/src/auth/scram.rs; section 4 of RFC 4648, section 3
    of RFC 5802). */
module ScramWire {
  import opened Bytes
  import opened Text
  import opened Base64
  import opened ScramText
  import opened Scram

  // ------------------------------------------------------------ base64

  const UPPER: string := "ABCDEFGHIJKLMNOPQRSTUVWXYZ"
  const LOWER: string := "abcdefghijklmnopqrstuvwxyz"
  const DIGITS: string := "0123456789"
  const ALPHABET: string := UPPER + LOWER + DIGITS + "+/"

  lemma UpperAt(v: nat)
    requires v < 26
    ensures UPPER[v] as int == 65 + v
  {
  }

  lemma LowerAt(v: nat)
    requires v < 26
    ensures LOWER[v] as int == 97 + v
  {
  }

  lemma NumeralAt(v: nat)
    requires v < 10
    ensures DIGITS[v] as int == 48 + v
  {
  }

  /** Sextet `v` is written as character `v` of the alphabet. */
  lemma AlphabetIs(v: sextet)
    ensures |ALPHABET| == 64 && Symbol(v) == ALPHABET[v] as int
  {
    if v < 26 {
      UpperAt(v);
    } else if v < 52 {
      LowerAt(v - 26);
    } else if v < 62 {
      NumeralAt(v - 52);
    }
  }

  /** Four symbols spell the same 24 bits as three bytes. */
  lemma SameBits(a: byte, b: byte, c: byte)
    ensures var s := Sextets(a, b, c);
            ((s.0 as int * 64 + s.1) * 64 + s.2) * 64 + s.3 == (a as int * 256 + b) * 256 + c
  {
  }

  /** A group pads with one equals sign for two bytes and two for one. */
  lemma GroupShape(a: byte, b: byte, c: byte)
    ensures var s := Sextets(a, b, c); Group([a, b, c]) == [Symbol(s.0), Symbol(s.1), Symbol(s.2), Symbol(s.3)]
    ensures var s := Sextets(a, b, 0); Group([a, b]) == [Symbol(s.0), Symbol(s.1), Symbol(s.2), 61]
    ensures var s := Sextets(a, 0, 0); Group([a]) == [Symbol(s.0), Symbol(s.1), 61, 61]
  {
    hide Sextets, Symbol;
  }

  // ------------------------------------------------------------ XOR

  predicate SmallPower(k: nat) {
    k == 1 || k == 2 || k == 4 || k == 8 || k == 16 || k == 32 || k == 64 || k == 128
  }

  lemma Powers(i: nat)
    requires i < 8
    ensures SmallPower(Pow2(i))
  {
    assert Pow2(0) == 1 && Pow2(1) == 2 && Pow2(2) == 4;
    assert Pow2(3) == 8 && Pow2(4) == 2 * Pow2(3) && Pow2(5) == 2 * Pow2(4);
    assert Pow2(6) == 2 * Pow2(5) && Pow2(7) == 2 * Pow2(6);
  }

  lemma HalfFirst(x: nat, k: nat)
    requires SmallPower(k)
    ensures x / (2 * k) == x / 2 / k
  {
    if k == 1 {
    } else if k == 2 {
    } else if k == 4 {
    } else if k == 8 {
    } else if k == 16 {
    } else if k == 32 {
    } else if k == 64 {
    }
  }

  lemma Halve(x: nat, i: nat)
    requires 1 <= i < 8
    ensures Pow2(i) >= 1 && Pow2(i - 1) >= 1 && x / Pow2(i) == x / 2 / Pow2(i - 1)
  {
    Powers(i - 1);
    HalfFirst(x, Pow2(i - 1));
  }

  /** Bit `i` of a number, least significant first. */
  function Bit(x: nat, i: nat): nat {
    if i == 0 then x % 2 else Bit(x / 2, i - 1)
  }

  lemma {:induction false} BitIsQuotient(x: nat, i: nat)
    requires i < 8
    ensures Pow2(i) >= 1 && Bit(x, i) == x / Pow2(i) % 2
    decreases i
  {
    if i == 0 {
      assert Pow2(0) == 1;
    } else {
      BitIsQuotient(x / 2, i - 1);
      Halve(x, i);
    }
  }

  lemma {:induction false} XorBit(a: nat, b: nat, width: nat, i: nat)
    requires i < width
    ensures Bit(XorBits(a, b, width), i) == (Bit(a, i) + Bit(b, i)) % 2
    decreases i
  {
    var x := XorBits(a, b, width);
    assert x % 2 == if a % 2 == b % 2 then 0 else 1;
    assert x / 2 == XorBits(a / 2, b / 2, width - 1);
    if i > 0 {
      XorBit(a / 2, b / 2, width - 1, i - 1);
    }
  }

  /** Each bit of the XOR of two byte strings is set exactly when the two bits
      differ. */
  lemma {:induction false} XorIsBitwise(a: bytes, b: bytes, j: nat, i: nat)
    requires j < |a| && j < |b| && i < 8
    ensures Pow2(i) >= 1
    ensures Xor(a, b)[j] / Pow2(i) % 2 == (a[j] / Pow2(i) % 2 + b[j] / Pow2(i) % 2) % 2
    decreases j
  {
    hide Pow2, XorBits, Bit;
    if j == 0 {
      XorBit(a[0], b[0], 8, i);
      BitIsQuotient(Xor(a, b)[0], i);
      BitIsQuotient(a[0], i);
      BitIsQuotient(b[0], i);
    } else {
      XorIsBitwise(a[1..], b[1..], j - 1, i);
    }
  }

  // ------------------------------------------------------------ passwords and keys

  const HEX_DIGITS: string := "0123456789abcdef"

  function HexValue(c: byte): nat {
    if 48 <= c <= 57 then c - 48 else if 97 <= c <= 102 then c - 87 else 0
  }

  /** The bytes two hexadecimal digits at a time spell. */
  function FromHex(h: bytes): seq<int> {
    if |h| < 2 then [] else [16 * HexValue(h[0]) + HexValue(h[1])] + FromHex(h[2..])
  }

  predicate IsHexDigit(c: byte) {
    exists v: nat :: v < 16 && HEX_DIGITS[v] as int == c
  }

  lemma HexPair(x: byte)
    ensures 16 * HexValue(HexDigit(x / 16)) + HexValue(HexDigit(x % 16)) == x
  {
  }

  lemma {:induction false} HexReadsBack(b: bytes)
    ensures |LowerHex(b)| == 2 * |b| && FromHex(LowerHex(b)) == b
  {
    hide HexDigit, HexValue;
    if b != [] {
      HexReadsBack(b[1..]);
      HexPair(b[0]);
      PairFirst(HexDigit(b[0] / 16), HexDigit(b[0] % 16), LowerHex(b[1..]));
      assert b == [b[0]] + b[1..];
    }
  }

  lemma PairFirst(x: byte, y: byte, rest: bytes)
    ensures FromHex([x, y] + rest) == [16 * HexValue(x) + HexValue(y)] + FromHex(rest)
  {
    hide HexValue;
    assert ([x, y] + rest)[2..] == rest;
  }

  lemma {:induction false} HexIsLower(b: bytes, i: nat)
    requires i < |LowerHex(b)|
    ensures IsHexDigit(LowerHex(b)[i])
    decreases |b|
  {
    hide HexDigit, HexValue;
    HexDigitIs(b[0] / 16);
    HexDigitIs(b[0] % 16);
    if i >= 2 {
      HexIsLower(b[1..], i - 2);
    }
  }

  lemma HexDigitIs(v: nat)
    requires v < 16
    ensures |HEX_DIGITS| == 16 && HexDigit(v) == HEX_DIGITS[v] as int && HexValue(HexDigit(v)) == v
  {
  }

  /** SCRAM-SHA-256 takes the password itself; SCRAM-SHA-1 the lower-case
      hexadecimal MD5 of user, ":mongo:" and password. */
  lemma PasswordIs(k: Crypto, username: bytes, password: bytes)
    ensures EffectivePassword(k, Sha256, username, password) == password
    ensures var p := EffectivePassword(k, Sha1, username, password);
            var digest := k.md5(username + Ascii(":mongo:") + password);
            && FromHex(p) == digest && |p| == 2 * |digest|
            && forall i :: 0 <= i < |p| ==> IsHexDigit(p[i])
  {
    hide LowerHex, FromHex, Ascii, ValidUtf8;
    AsciiIs(":mongo:", PASSWORD_INFIX);
    var digest := k.md5(username + PASSWORD_INFIX + password);
    HexReadsBack(digest);
    forall i | 0 <= i < |LowerHex(digest)|
      ensures IsHexDigit(LowerHex(digest)[i])
    {
      HexIsLower(digest, i);
    }
  }

  const CLIENT_KEY: Str := Ascii("Client Key")
  const SERVER_KEY: Str := Ascii("Server Key")

  lemma ClientKeyLabel()
    ensures CLIENT_KEY_LABEL == CLIENT_KEY
  {
    hide Ascii, ValidUtf8;
    AsciiIs("Client Key", CLIENT_KEY_LABEL);
  }

  lemma ServerKeyLabel()
    ensures SERVER_KEY_LABEL == SERVER_KEY
  {
    hide Ascii, ValidUtf8;
    AsciiIs("Server Key", SERVER_KEY_LABEL);
  }

  /** Stored key H(HMAC(salted, "Client Key")), server key HMAC(salted, "Server
      Key"), both from the one PBKDF2 of the password. */
  lemma DeriveIs(k: Crypto, m: Mechanism, password: bytes, salt: bytes, iterations: u32)
    ensures var salted := k.pbkdf2(m, password, salt, iterations);
            Derive(k, m, password, salt, iterations) ==
            Credentials(salt, iterations,
                        k.hash(m, k.hmac(m, salted, CLIENT_KEY)), k.hmac(m, salted, SERVER_KEY))
  {
    hide Ascii, ValidUtf8;
    ClientKeyLabel();
    ServerKeyLabel();
  }

  // ------------------------------------------------------------ messages

  /** A comma becomes "=2C", an equals sign "=3D", every other byte itself. */
  lemma TokenIs(b: byte)
    ensures Token(b) == if b == 44 then Ascii("=2C") else if b == 61 then Ascii("=3D") else [b]
  {
    hide Ascii, ValidUtf8;
    AsciiIs("=2C", ESCAPED_COMMA);
    AsciiIs("=3D", ESCAPED_EQUALS);
  }

  lemma ClientFirstIs(c: Client)
    requires c.phase == Init
    ensures ClientFirst(c).result == Ok(Ascii("n,,n=") + Escape(c.username) + Ascii(",r=") + c.clientNonce)
  {
    hide Escape, Ascii, ValidUtf8;
    AsciiIs("n,,n=", [110, 44, 44, 110, 61]);
    AsciiIs(",r=", [44, 114, 61]);
    var name, nonce := Escape(c.username), c.clientNonce;
    assert GS2_HEADER + (([110] + ([61] + name)) + ([44] + ([114] + ([61] + nonce)))) ==
           [110, 44, 44, 110, 61] + name + [44, 114, 61] + nonce;
  }

  lemma ServerFirstIs(nonce: bytes, credentials: Credentials)
    ensures ServerFirstMessage(nonce, credentials) ==
            Ascii("r=") + nonce + Ascii(",s=") + Encode(credentials.salt)
            + Ascii(",i=") + Decimal(credentials.iterations)
  {
    hide Encode, Decimal, Ascii, ValidUtf8;
    AsciiIs("r=", [114, 61]);
    AsciiIs(",s=", [44, 115, 61]);
    AsciiIs(",i=", [44, 105, 61]);
  }

  const BINDING: bytes := [99, 61, 98, 105, 119, 115, 44, 114, 61]

  lemma BindingText()
    ensures BINDING == Ascii("c=biws,r=")
  {
    hide Ascii, ValidUtf8;
    AsciiIs("c=biws,r=", [99, 61, 98, 105, 119, 115, 44, 114, 61]);
  }

  lemma BindingParts(nonce: bytes)
    ensures Letter(CHANNEL_BINDING_KEY, NO_CHANNEL_BINDING) == [99, 61, 98, 105, 119, 115]
    ensures [COMMA] + Letter(NONCE_KEY, nonce) == [44, 114, 61] + nonce
  {
  }

  lemma Reassociated(a: bytes, b: bytes, c: bytes)
    ensures a + (b + c) == a + b + c
  {
  }

  lemma WithoutProofIs(nonce: bytes)
    ensures WithoutProof(nonce) == BINDING + nonce
  {
    hide Letter;
    var c: bytes, r: bytes := [99, 61, 98, 105, 119, 115], [44, 114, 61];
    BindingParts(nonce);
    Reassociated(c, r, nonce);
  }

  lemma ProofPart(head: bytes, text: bytes)
    ensures head + ([COMMA] + Letter(PROOF_KEY, text)) == head + Ascii(",p=") + text
  {
    hide Ascii, ValidUtf8;
    AsciiIs(",p=", [44, 112, 61]);
  }

  /** The proof is the client key XOR the HMAC of the transcript under the
      stored key. */
  lemma ClientFinalIs(k: Crypto, c: Client)
    requires c.phase == FirstSent && c.serverFirst.Some? && c.saltedPassword.Some?
    ensures var withoutProof := BINDING + c.serverFirst.value.nonce;
            var transcript := c.authMessage + withoutProof;
            var clientKey := k.hmac(c.mechanism, c.saltedPassword.value, CLIENT_KEY);
            var signature := k.hmac(c.mechanism, k.hash(c.mechanism, clientKey), transcript);
            && ClientFinal(k, c).result == Ok(withoutProof + Ascii(",p=") + Encode(Xor(clientKey, signature)))
            && ClientFinal(k, c).state.authMessage == transcript
  {
    hide Encode, Xor, Ascii, WithoutProof, Letter, ValidUtf8;
    ClientKeyLabel();
    WithoutProofIs(c.serverFirst.value.nonce);
    var transcript := c.authMessage + WithoutProof(c.serverFirst.value.nonce);
    var clientKey := k.hmac(c.mechanism, c.saltedPassword.value, CLIENT_KEY_LABEL);
    var signature := k.hmac(c.mechanism, k.hash(c.mechanism, clientKey), transcript);
    ProofPart(WithoutProof(c.serverFirst.value.nonce), Encode(Xor(clientKey, signature)));
  }

  /** Client-first without its header, server-first and client-final without its
      proof, joined by commas. */
  lemma TranscriptIs(s: Server)
    ensures AuthMessage(s) ==
            s.clientFirstBare + Ascii(",") + s.serverFirstMessage + Ascii(",") + BINDING + s.clientNonce + s.serverNonce
  {
    hide Ascii, WithoutProof, ValidUtf8;
    WithoutProofIs(FullNonce(s));
    AsciiIs(",", [44]);
    Joined(s.clientFirstBare, s.serverFirstMessage, BINDING, s.clientNonce, s.serverNonce);
  }

  lemma Joined(a: bytes, b: bytes, c: bytes, d: bytes, e: bytes)
    ensures a + ([44] + (b + ([44] + (c + (d + e))))) == a + [44] + b + [44] + c + d + e
  {
  }

  /** An accepted client-final is answered by `v=` and the base64 of the HMAC of
      the transcript under the server key. */
  lemma ServerFinalIs(k: Crypto, s: Server, msg: bytes)
    requires HandleClientFinal(k, s, msg).result.Ok?
    ensures s.credentials.Some?
    ensures HandleClientFinal(k, s, msg).result ==
            Ok(Ascii("v=") + Encode(k.hmac(s.mechanism, s.credentials.value.serverKey, AuthMessage(s))))
  {
    hide Encode, AuthMessage, ClientProof, Xor, Ascii, ValidUtf8;
    AsciiIs("v=", [118, 61]);
    var text := Encode(k.hmac(s.mechanism, s.credentials.value.serverKey, AuthMessage(s)));
    assert [118] + ([61] + text) == [118, 61] + text;
  }

  // ------------------------------------------------------------ what is accepted

  /** An attribute is one character, an equals sign and anything. */
  lemma AttributeIff(part: bytes, a: Attribute)
    ensures ParseAttribute(part) == Some(a) <==>
            part == a.key + Ascii("=") + a.value && a.key != [] && CharLen(a.key) == |a.key|
  {
    hide Ascii, CharLen, ValidUtf8;
    AsciiIs("=", [61]);
    if ParseAttribute(part) == Some(a) {
      CharOfPrefix(part);
    }
    if part == a.key + [61] + a.value && a.key != [] && CharLen(a.key) == |a.key| {
      CharBefore(a.key, [61] + a.value);
      assert part == a.key + ([61] + a.value);
    }
  }

  lemma CharOfPrefix(b: bytes)
    requires CharLen(b) > 0
    ensures CharLen(b[..CharLen(b)]) == CharLen(b)
  {
  }

  lemma CharBefore(key: bytes, rest: bytes)
    requires key != [] && CharLen(key) == |key|
    ensures CharLen(key + rest) == |key|
  {
  }

  /** The server takes a client-first message exactly when it waits for one, the
      message begins "n,,", and the attributes behind are `n`, then `r` with a
      nonce that is not empty, then any but `m`. */
  lemma ClientFirstIff(s: Server, msg: bytes, username: bytes, credentials: Credentials)
    ensures HandleClientFirst(s, msg, username, credentials).result.Ok? <==>
            && s.phase == ExpectClientFirst && Ascii("n,,") <= msg
            && ParseAttributes(msg[3..]).Some?
            && var attrs := ParseAttributes(msg[3..]).value;
               && |attrs| >= 2 && attrs[0].key == Ascii("n") && attrs[1].key == Ascii("r") && attrs[1].value != []
               && forall i :: 0 <= i < |attrs| ==> attrs[i].key != Ascii("m")
  {
    hide ParseAttributes, ServerFirstMessage, Ascii, ValidUtf8;
    AsciiIs("n,,", GS2_HEADER);
    AsciiIs("n", [110]);
    AsciiIs("r", [114]);
    AsciiIs("m", [109]);
  }

  /** The client takes a server-first message exactly when it waits for one, the
      message parses, and its nonce extends the client's own. */
  lemma ServerFirstAcceptedIff(k: Crypto, c: Client, msg: bytes)
    ensures ReceiveServerFirst(k, c, msg).result.Ok? <==>
            && c.phase == FirstSent && c.serverFirst == None
            && ParseServerFirst(msg).Ok? && c.clientNonce <= ParseServerFirst(msg).value.nonce
  {
    hide ParseServerFirst;
  }

  /** Iteration counts are taken from 1 to 1000000. */
  lemma IterationsIff(value: bytes)
    ensures ReadIterations(value).Ok? <==> ParseU32(value).Some? && 1 <= ParseU32(value).value <= 1_000_000
    ensures ReadIterations(value).Ok? ==> Some(ReadIterations(value).value) == ParseU32(value)
  {
    hide ParseU32;
  }
}
