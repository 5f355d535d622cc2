/** What the SCRAM machines guarantee: messages are parsed exactly, an honest
    exchange completes, and every run of calls keeps to the protocol. */
module ScramTheorems {
  import opened Bytes
  import opened Text
  import opened Base64
  import opened ScramText
  import opened Scram

  // ------------------------------------------------------------ messages

  lemma PartsCons(key: byte, value: bytes, rest: seq<bytes>)
    requires key <= 0x7F && ParseParts(rest).Some?
    ensures ParseParts([Letter(key, value)] + rest) == Some([Attribute([key], value)] + ParseParts(rest).value)
  {
    hide ParseAttribute, Letter;
    ParseLetter(key, value);
    var parts := [Letter(key, value)] + rest;
    assert parts[1..] == rest;
  }

  lemma AttributesSingle(key: byte, value: bytes)
    requires key <= 0x7F && key != COMMA && CommaFree(value)
    ensures ParseAttributes(Letter(key, value)) == Some([Attribute([key], value)])
  {
    hide Split, ParseParts, Letter;
    LetterCommaFree(key, value);
    SplitOne(Letter(key, value));
    NoParts();
    PartsCons(key, value, []);
    assert [Letter(key, value)] + [] == [Letter(key, value)];
    assert [Attribute([key], value)] + [] == [Attribute([key], value)];
  }

  lemma NoParts()
    ensures ParseParts([]) == Some([])
  {
  }

  lemma AttributesCons(key: byte, value: bytes, rest: bytes)
    requires key <= 0x7F && key != COMMA && CommaFree(value)
    requires ParseAttributes(rest).Some?
    ensures ParseAttributes(Letter(key, value) + ([COMMA] + rest)) ==
            Some([Attribute([key], value)] + ParseAttributes(rest).value)
  {
    hide Split, ParseParts, Letter;
    LetterCommaFree(key, value);
    SplitFirst(Letter(key, value), rest);
    PartsCons(key, value, Split(rest));
  }

  /** A message of one attribute is that attribute. */
  lemma SingleAttribute(msg: bytes)
    requires ParseAttributes(msg).Some? && |ParseAttributes(msg).value| == 1
    ensures msg == AttributeBytes(ParseAttributes(msg).value[0])
  {
    hide Split, ParseParts;
    JoinOfSplit(msg);
    PartsOf(Split(msg), 0);
  }

  lemma ClientNonceOf(username: bytes, nonce: bytes)
    requires nonce != [] && CommaFree(nonce)
    ensures ClientNonce(ClientFirstBare(username, nonce)) == Ok(nonce)
  {
    hide ParseAttributes, Escape;
    EscapeIsCommaFree(username);
    AttributesSingle(NONCE_KEY, nonce);
    AttributesCons(USERNAME_KEY, Escape(username), Letter(NONCE_KEY, nonce));
  }

  lemma StripGs2Of(bare: bytes)
    ensures StripGs2(GS2_HEADER + bare) == Ok(bare)
  {
    assert (GS2_HEADER + bare)[3..] == bare;
  }

  lemma ServerFirstAttributes(nonce: bytes, credentials: Credentials)
    requires CommaFree(nonce)
    ensures ParseAttributes(ServerFirstMessage(nonce, credentials)) ==
            Some([Attribute([NONCE_KEY], nonce),
                  Attribute([SALT_KEY], Encode(credentials.salt)),
                  Attribute([ITERATION_KEY], Decimal(credentials.iterations))])
  {
    hide ParseAttributes, Encode, Letter;
    var salt, iterations := Encode(credentials.salt), Decimal(credentials.iterations);
    EncodeIsPlain(credentials.salt);
    ParseU32OfDecimal(credentials.iterations);
    AttributesSingle(ITERATION_KEY, iterations);
    AttributesCons(SALT_KEY, salt, Letter(ITERATION_KEY, iterations));
    AttributesCons(NONCE_KEY, nonce, Letter(SALT_KEY, salt) + ([COMMA] + Letter(ITERATION_KEY, iterations)));
    var n, s, i := Attribute([NONCE_KEY], nonce), Attribute([SALT_KEY], salt), Attribute([ITERATION_KEY], iterations);
    assert [n] + ([s] + [i]) == [n, s, i];
  }

  lemma GatherThree(a: Attribute, b: Attribute, c: Attribute)
    requires a.key == [NONCE_KEY] && b.key == [SALT_KEY] && c.key == [ITERATION_KEY]
    requires ReadSalt(b.value).Ok? && ReadIterations(c.value).Ok?
    ensures Gather(Gathered(None, None, None), [a, b, c]) ==
            Ok(Gathered(Some(a.value), Some(ReadSalt(b.value).value), Some(ReadIterations(c.value).value)))
  {
    hide ReadSalt, ReadIterations;
    assert [a, b, c][1..] == [b, c];
    assert [b, c][1..] == [c];
    var g1 := Gathered(Some(a.value), None, None);
    assert GatherOne(Gathered(None, None, None), a) == Ok(g1);
    var g2 := g1.(salt := Some(ReadSalt(b.value).value));
    assert GatherOne(g1, b) == Ok(g2);
    assert Gather(g2, [c]) == Ok(g2.(iterations := Some(ReadIterations(c.value).value)));
    assert Gather(g1, [b, c]) == Gather(g2, [c]);
  }

  /** The client reads back what the server put into its first message. */
  lemma ParseServerFirstOf(nonce: bytes, credentials: Credentials)
    requires nonce != [] && CommaFree(nonce)
    requires 1 <= credentials.iterations <= MAX_ITERATIONS
    ensures ParseServerFirst(ServerFirstMessage(nonce, credentials)) ==
            Ok(ServerFirst(nonce, credentials.salt, credentials.iterations))
  {
    hide ParseAttributes, Gather, ServerFirstMessage, Decode, ParseU32;
    ServerFirstAttributes(nonce, credentials);
    DecodeOfEncode(credentials.salt);
    ParseU32OfDecimal(credentials.iterations);
    GatherThree(Attribute([NONCE_KEY], nonce),
                Attribute([SALT_KEY], Encode(credentials.salt)),
                Attribute([ITERATION_KEY], Decimal(credentials.iterations)));
  }

  // ------------------------------------------------------------ server-first, in any order

  /** What the loop adds to `g`: the first value of each key still missing. */
  lemma {:induction false} GatherIff(g: Gathered, attrs: seq<Attribute>)
    ensures Gather(g, attrs).Ok? <==>
            && (g.salt == None && First(attrs, SALT_KEY).Some? ==> Decode(First(attrs, SALT_KEY).value).Some?)
            && (g.iterations == None && First(attrs, ITERATION_KEY).Some? ==>
                  ReadIterations(First(attrs, ITERATION_KEY).value).Ok?)
    ensures Gather(g, attrs).Ok? ==>
              var r := Gather(g, attrs).value;
              && r.nonce == (if g.nonce.Some? then g.nonce else First(attrs, NONCE_KEY))
              && r.salt == (if g.salt.Some? || First(attrs, SALT_KEY) == None then g.salt
                            else Decode(First(attrs, SALT_KEY).value))
              && r.iterations == (if g.iterations.Some? || First(attrs, ITERATION_KEY) == None then g.iterations
                                  else Some(ReadIterations(First(attrs, ITERATION_KEY).value).value))
    decreases attrs
  {
    hide Decode, ReadIterations;
    if attrs != [] {
      var next := GatherOne(g, attrs[0]);
      if next.Ok? {
        GatherIff(next.value, attrs[1..]);
      }
    }
  }

  /** A server-first message is accepted exactly when its first nonce is
      non-empty, its first salt is base64 and its first iteration count is in
      range, in whatever order and among whatever other attributes. */
  lemma ServerFirstIff(msg: bytes)
    ensures ParseServerFirst(msg).Ok? <==>
            && ParseAttributes(msg).Some?
            && var attrs := ParseAttributes(msg).value;
               var nonce, salt, count := First(attrs, NONCE_KEY), First(attrs, SALT_KEY), First(attrs, ITERATION_KEY);
               && nonce.Some? && nonce.value != []
               && salt.Some? && Decode(salt.value).Some?
               && count.Some? && ReadIterations(count.value).Ok?
    ensures ParseServerFirst(msg).Ok? ==>
              var attrs := ParseAttributes(msg).value;
              ParseServerFirst(msg).value ==
              ServerFirst(First(attrs, NONCE_KEY).value,
                          Decode(First(attrs, SALT_KEY).value).value,
                          ReadIterations(First(attrs, ITERATION_KEY).value).value)
  {
    hide ParseAttributes, Gather, Decode, ReadIterations, First;
    if ParseAttributes(msg).Some? {
      GatherIff(Gathered(None, None, None), ParseAttributes(msg).value);
    }
  }

  // ------------------------------------------------------------ client-final

  function Part(key: byte, value: Option<bytes>): multiset<bytes> {
    if value == None then multiset{} else multiset{Letter(key, value.value)}
  }

  function Present(f: FinalAttributes): multiset<bytes> {
    Part(CHANNEL_BINDING_KEY, f.channelBinding) + (Part(NONCE_KEY, f.nonce) + Part(PROOF_KEY, f.proof))
  }

  lemma PartFacts(key: byte, value: bytes)
    ensures Part(key, None) == multiset{}
    ensures Part(key, Some(value)) == multiset{Letter(key, value)}
  {
  }

  lemma MovePart<T>(c: multiset<T>, n: multiset<T>, p: multiset<T>, x: multiset<T>)
    ensures x + (n + p) == (multiset{} + (n + p)) + x
    ensures c + (x + p) == (c + (multiset{} + p)) + x
    ensures c + (n + x) == (c + (n + multiset{})) + x
  {
  }

  lemma CollectOnePresent(f: FinalAttributes, a: Attribute)
    requires CollectOne(f, a).Ok?
    ensures Present(CollectOne(f, a).value) == Present(f) + multiset{AttributeBytes(a)}
  {
    hide Letter, AttributeBytes, Part;
    LetterIsAttribute(a);
    PartFacts(a.key[0], a.value);
    MovePart(Part(CHANNEL_BINDING_KEY, f.channelBinding), Part(NONCE_KEY, f.nonce), Part(PROOF_KEY, f.proof),
             multiset{AttributeBytes(a)});
  }

  lemma LetterIsAttribute(a: Attribute)
    ensures |a.key| == 1 ==> Letter(a.key[0], a.value) == AttributeBytes(a)
  {
  }

  /** The loop over a client-final message neither drops nor repeats a part. */
  lemma {:induction false} CollectPresent(f: FinalAttributes, parts: seq<bytes>)
    requires ParseParts(parts).Some?
    requires Collect(f, ParseParts(parts).value).Ok?
    ensures Present(Collect(f, ParseParts(parts).value).value) == Present(f) + multiset(parts)
    decreases parts
  {
    hide Present, ParseAttribute;
    if parts != [] {
      var attrs := ParseParts(parts).value;
      PartsOf(parts, 0);
      CollectOnePresent(f, attrs[0]);
      assert attrs[1..] == ParseParts(parts[1..]).value;
      CollectPresent(CollectOne(f, attrs[0]).value, parts[1..]);
      assert parts == [parts[0]] + parts[1..];
    }
  }

  /** The three parts of a client-final message that carries `proof`. */
  function FinalParts(nonce: bytes, proof: bytes): multiset<bytes> {
    multiset{Letter(CHANNEL_BINDING_KEY, NO_CHANNEL_BINDING), Letter(NONCE_KEY, nonce),
             Letter(PROOF_KEY, Encode(proof))}
  }

  lemma ProofMeansParts(s: Server, msg: bytes)
    requires ClientProof(s, msg).Ok?
    ensures multiset(Split(msg)) == FinalParts(FullNonce(s), ClientProof(s, msg).value)
  {
    hide Split, ParseParts, Collect, Decode, Encode, Letter, Present;
    PresentNone();
    var f := Collect(FinalAttributes(None, None, None), ParseAttributes(msg).value).value;
    CollectPresent(FinalAttributes(None, None, None), Split(msg));
    EncodeOfDecode(f.proof.value);
    assert Encode(ClientProof(s, msg).value) == f.proof.value;
    PresentAll(f);
  }

  lemma PresentAll(f: FinalAttributes)
    requires f.channelBinding.Some? && f.nonce.Some? && f.proof.Some?
    ensures Present(f) ==
            multiset{Letter(CHANNEL_BINDING_KEY, f.channelBinding.value), Letter(NONCE_KEY, f.nonce.value),
                     Letter(PROOF_KEY, f.proof.value)}
  {
    hide Letter;
  }

  lemma PresentNone()
    ensures Present(FinalAttributes(None, None, None)) == multiset{}
  {
  }

  lemma Arrangements(parts: seq<bytes>, a: bytes, b: bytes, c: bytes)
    requires multiset(parts) == multiset{a, b, c}
    requires a != b && b != c && a != c
    ensures |parts| == 3
    ensures parts == [a, b, c] || parts == [a, c, b] || parts == [b, a, c]
            || parts == [b, c, a] || parts == [c, a, b] || parts == [c, b, a]
  {
    assert |multiset(parts)| == 3;
    assert parts == [parts[0], parts[1], parts[2]];
    assert parts[0] in multiset(parts) && parts[1] in multiset(parts) && parts[2] in multiset(parts);
    assert multiset(parts) == multiset{parts[0], parts[1], parts[2]};
    assert multiset(parts)[a] == 1 && multiset(parts)[b] == 1 && multiset(parts)[c] == 1;
  }

  predicate FinalKey(key: byte) {
    key == CHANNEL_BINDING_KEY || key == NONCE_KEY || key == PROOF_KEY
  }

  function Slot(f: FinalAttributes, key: byte): Option<bytes>
    requires FinalKey(key)
  {
    if key == CHANNEL_BINDING_KEY then f.channelBinding else if key == NONCE_KEY then f.nonce else f.proof
  }

  function Fill(f: FinalAttributes, key: byte, value: bytes): FinalAttributes
    requires FinalKey(key)
  {
    if key == CHANNEL_BINDING_KEY then f.(channelBinding := Some(value))
    else if key == NONCE_KEY then f.(nonce := Some(value))
    else f.(proof := Some(value))
  }

  lemma CollectFills(f: FinalAttributes, key: byte, value: bytes)
    requires FinalKey(key) && Slot(f, key) == None
    ensures CollectOne(f, Attribute([key], value)) == Ok(Fill(f, key, value))
  {
    assert [key][0] == key;
  }

  /** Three attributes with distinct keys are collected in any order. */
  lemma CollectThree(x: byte, xv: bytes, y: byte, yv: bytes, z: byte, zv: bytes)
    requires FinalKey(x) && FinalKey(y) && FinalKey(z) && x != y && y != z && x != z
    ensures var parts := [Letter(x, xv), Letter(y, yv), Letter(z, zv)];
            && ParseParts(parts).Some?
            && Collect(FinalAttributes(None, None, None), ParseParts(parts).value) ==
               Ok(Fill(Fill(Fill(FinalAttributes(None, None, None), x, xv), y, yv), z, zv))
  {
    hide Letter, ParseParts, CollectOne, Collect;
    ParseThree(x, xv, y, yv, z, zv);
    var a, b, c := Attribute([x], xv), Attribute([y], yv), Attribute([z], zv);
    var none := FinalAttributes(None, None, None);
    CollectFills(none, x, xv);
    CollectFills(Fill(none, x, xv), y, yv);
    CollectFills(Fill(Fill(none, x, xv), y, yv), z, zv);
    CollectCons(none, a, [b, c]);
    assert [a] + [b, c] == [a, b, c];
    CollectCons(Fill(none, x, xv), b, [c]);
    assert [b] + [c] == [b, c];
    CollectLast(Fill(Fill(none, x, xv), y, yv), c);
  }

  lemma ParseThree(x: byte, xv: bytes, y: byte, yv: bytes, z: byte, zv: bytes)
    requires x <= 0x7F && y <= 0x7F && z <= 0x7F
    ensures ParseParts([Letter(x, xv), Letter(y, yv), Letter(z, zv)]) ==
            Some([Attribute([x], xv), Attribute([y], yv), Attribute([z], zv)])
  {
    hide Letter, ParseParts;
    var a, b, c := Attribute([x], xv), Attribute([y], yv), Attribute([z], zv);
    NoParts();
    PartsCons(z, zv, []);
    assert [Letter(z, zv)] + [] == [Letter(z, zv)];
    assert [c] + [] == [c];
    PartsCons(y, yv, [Letter(z, zv)]);
    assert [Letter(y, yv)] + [Letter(z, zv)] == [Letter(y, yv), Letter(z, zv)];
    assert [b] + [c] == [b, c];
    PartsCons(x, xv, [Letter(y, yv), Letter(z, zv)]);
    assert [Letter(x, xv)] + [Letter(y, yv), Letter(z, zv)] == [Letter(x, xv), Letter(y, yv), Letter(z, zv)];
    assert [a] + [b, c] == [a, b, c];
  }

  lemma CollectCons(f: FinalAttributes, a: Attribute, rest: seq<Attribute>)
    ensures Collect(f, [a] + rest) ==
            if CollectOne(f, a).Err? then CollectOne(f, a) else Collect(CollectOne(f, a).value, rest)
  {
    hide CollectOne;
    assert ([a] + rest)[1..] == rest;
  }

  lemma CollectLast(f: FinalAttributes, a: Attribute)
    ensures Collect(f, [a]) == CollectOne(f, a)
  {
    hide CollectOne;
  }

  lemma CollectArranged(c: bytes, r: bytes, p: bytes, parts: seq<bytes>)
    requires multiset(parts) ==
             multiset{Letter(CHANNEL_BINDING_KEY, c), Letter(NONCE_KEY, r), Letter(PROOF_KEY, p)}
    ensures ParseParts(parts).Some?
    ensures Collect(FinalAttributes(None, None, None), ParseParts(parts).value) ==
            Ok(FinalAttributes(Some(c), Some(r), Some(p)))
  {
    hide ParseParts, Collect, Letter;
    var lc, lr, lp := Letter(CHANNEL_BINDING_KEY, c), Letter(NONCE_KEY, r), Letter(PROOF_KEY, p);
    LettersDiffer(CHANNEL_BINDING_KEY, c, NONCE_KEY, r);
    LettersDiffer(CHANNEL_BINDING_KEY, c, PROOF_KEY, p);
    LettersDiffer(NONCE_KEY, r, PROOF_KEY, p);
    Arrangements(parts, lc, lr, lp);
    if parts == [lc, lr, lp] {
      CollectThree(CHANNEL_BINDING_KEY, c, NONCE_KEY, r, PROOF_KEY, p);
    } else if parts == [lc, lp, lr] {
      CollectThree(CHANNEL_BINDING_KEY, c, PROOF_KEY, p, NONCE_KEY, r);
    } else if parts == [lr, lc, lp] {
      CollectThree(NONCE_KEY, r, CHANNEL_BINDING_KEY, c, PROOF_KEY, p);
    } else if parts == [lr, lp, lc] {
      CollectThree(NONCE_KEY, r, PROOF_KEY, p, CHANNEL_BINDING_KEY, c);
    } else if parts == [lp, lc, lr] {
      CollectThree(PROOF_KEY, p, CHANNEL_BINDING_KEY, c, NONCE_KEY, r);
    } else {
      CollectThree(PROOF_KEY, p, NONCE_KEY, r, CHANNEL_BINDING_KEY, c);
    }
  }

  lemma LettersDiffer(x: byte, xv: bytes, y: byte, yv: bytes)
    requires x != y
    ensures Letter(x, xv) != Letter(y, yv)
  {
    assert Letter(x, xv)[0] != Letter(y, yv)[0];
  }

  lemma PartsMeanProof(s: Server, msg: bytes, proof: bytes)
    requires multiset(Split(msg)) == FinalParts(FullNonce(s), proof)
    ensures ClientProof(s, msg) == Ok(proof)
  {
    hide Split, ParseParts, Collect, Decode, Encode, Letter;
    CollectArranged(NO_CHANNEL_BINDING, FullNonce(s), Encode(proof), Split(msg));
    DecodeOfEncode(proof);
  }

  /** A client-final message carries `proof` exactly when its comma-separated
      parts are `c=biws`, `r=` with the full nonce and `p=` with the base64 of
      the proof: each once, in any order, and nothing else. */
  lemma ClientProofIff(s: Server, msg: bytes, proof: bytes)
    ensures ClientProof(s, msg) == Ok(proof) <==> multiset(Split(msg)) == FinalParts(FullNonce(s), proof)
  {
    hide ClientProof, Split, FinalParts;
    if ClientProof(s, msg) == Ok(proof) {
      ProofMeansParts(s, msg);
    }
    if multiset(Split(msg)) == FinalParts(FullNonce(s), proof) {
      PartsMeanProof(s, msg, proof);
    }
  }

  /** The server accepts a client-final message exactly when it is waiting for
      one and the message carries a proof of the stored key over the transcript. */
  lemma FinalAcceptedIff(k: Crypto, s: Server, msg: bytes)
    ensures HandleClientFinal(k, s, msg).result.Ok? <==>
            && s.phase == ExpectClientFinal
            && s.credentials.Some?
            && exists proof :: multiset(Split(msg)) == FinalParts(FullNonce(s), proof)
                               && Proves(k, s.mechanism, s.credentials.value, AuthMessage(s), proof)
  {
    hide ClientProof, Split, FinalParts, AuthMessage;
    if ClientProof(s, msg).Ok? {
      ClientProofIff(s, msg, ClientProof(s, msg).value);
    }
    if proof :| multiset(Split(msg)) == FinalParts(FullNonce(s), proof)
                && s.credentials.Some? && Proves(k, s.mechanism, s.credentials.value, AuthMessage(s), proof) {
      ClientProofIff(s, msg, proof);
    }
  }

  /** A well-formed client-final message with a wrong proof is refused with the
      reason, and the server is as it was. */
  lemma WrongProofIsRefused(k: Crypto, s: Server, msg: bytes, proof: bytes)
    requires s.phase == ExpectClientFinal && s.credentials.Some?
    requires multiset(Split(msg)) == FinalParts(FullNonce(s), proof)
    requires !Proves(k, s.mechanism, s.credentials.value, AuthMessage(s), proof)
    ensures var signature := k.hmac(s.mechanism, s.credentials.value.storedKey, AuthMessage(s));
            HandleClientFinal(k, s, msg) ==
            Step(s, Err(if |proof| != |signature| then InvalidMessage(WrongProofLength) else ClientProofMismatch))
  {
    hide ClientProof, Split, FinalParts, AuthMessage;
    ClientProofIff(s, msg, proof);
  }
}
