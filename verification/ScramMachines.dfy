/** `ScramClient` and `ScramServer` as the objects they are: fields updated step
    by step, each method tied to the step function it refines
    (mongo_common/src/auth/scram.rs). */
module ScramMachines {
  import opened Bytes
  import opened Base64
  import opened ScramText
  import opened Scram

  lemma GatherSuffix(g: Gathered, attrs: seq<Attribute>, i: nat)
    requires i < |attrs|
    ensures Gather(g, attrs[i..]) ==
            if GatherOne(g, attrs[i]).Err? then Err(GatherOne(g, attrs[i]).error)
            else Gather(GatherOne(g, attrs[i]).value, attrs[i + 1..])
  {
    hide GatherOne;
    assert attrs[i..][1..] == attrs[i + 1..];
  }

  /** `ServerFirst::parse`. */
  method ReadServerFirst(msg: bytes) returns (r: Result<ServerFirst, AuthError>)
    ensures r == ParseServerFirst(msg)
  {
    hide ParseAttributes, ReadIterations, ReadSalt, Gather;
    var nonce: Option<bytes>, salt: Option<bytes>, iterations: Option<u32> := None, None, None;
    var attrs := ParseAttributes(msg);
    if attrs == None {
      return Err(InvalidMessage(MalformedAttribute));
    }
    ghost var all := Gather(Gathered(None, None, None), attrs.value);
    assert attrs.value[0..] == attrs.value;
    for i := 0 to |attrs.value|
      invariant Gather(Gathered(nonce, salt, iterations), attrs.value[i..]) == all
    {
      var a := attrs.value[i];
      GatherSuffix(Gathered(nonce, salt, iterations), attrs.value, i);
      if a.key == [NONCE_KEY] && nonce == None {
        nonce := Some(a.value);
      } else if a.key == [SALT_KEY] && salt == None {
        var decoded := ReadSalt(a.value);
        if decoded.Err? {
          return Err(decoded.error);
        }
        salt := Some(decoded.value);
      } else if a.key == [ITERATION_KEY] && iterations == None {
        var parsed := ReadIterations(a.value);
        if parsed.Err? {
          return Err(parsed.error);
        }
        iterations := Some(parsed.value);
      }
    }
    GatherNothing(Gathered(nonce, salt, iterations));
    assert attrs.value[|attrs.value|..] == [];
    if nonce == None || nonce.value == [] {
      return Err(InvalidMessage(MissingServerNonce));
    }
    if salt == None {
      return Err(InvalidMessage(MissingSalt));
    }
    if iterations == None {
      return Err(InvalidMessage(MissingIterations));
    }
    return Ok(ServerFirst(nonce.value, salt.value, iterations.value));
  }

  lemma GatherNothing(g: Gathered)
    ensures Gather(g, []) == Ok(g)
  {
  }

  class ScramClient {
    const mechanism: Mechanism
    const username: bytes
    const password: bytes
    const clientNonce: bytes
    var serverFirst: Option<ServerFirst>
    var saltedPassword: Option<bytes>
    var authMessage: bytes
    var phase: ClientPhase

    ghost function View(): Client
      reads this
    {
      Client(mechanism, username, password, clientNonce, serverFirst, saltedPassword, authMessage, phase)
    }

    constructor (k: Crypto, m: Mechanism, user: bytes, secret: bytes, nonce: bytes)
      ensures View() == NewClient(k, m, user, secret, nonce)
    {
      mechanism := m;
      username := user;
      password := EffectivePassword(k, m, user, secret);
      clientNonce := nonce;
      serverFirst := None;
      saltedPassword := None;
      authMessage := [];
      phase := Init;
    }

    method FirstMessage() returns (r: Result<bytes, AuthError>)
      modifies this
      ensures Step(View(), r) == ClientFirst(old(View()))
    {
      if phase != Init {
        return Err(OutOfOrder);
      }
      var bare := ClientFirstBare(username, clientNonce);
      authMessage := bare;
      phase := FirstSent;
      return Ok(GS2_HEADER + bare);
    }

    method TakeServerFirst(k: Crypto, msg: bytes) returns (r: Result<bytes, AuthError>)
      modifies this
      ensures Step(View(), r) == ReceiveServerFirst(k, old(View()), msg)
    {
      hide ParseServerFirst;
      if phase != FirstSent || serverFirst.Some? {
        return Err(OutOfOrder);
      }
      var first := ReadServerFirst(msg);
      if first.Err? {
        return Err(first.error);
      }
      if !(clientNonce <= first.value.nonce) {
        return Err(NonceMismatch);
      }
      var salted := k.pbkdf2(mechanism, password, first.value.salt, first.value.iterations);
      authMessage := authMessage + ([COMMA] + (msg + [COMMA]));
      saltedPassword := Some(salted);
      serverFirst := Some(first.value);
      return Ok([]);
    }

    method FinalMessage(k: Crypto) returns (r: Result<bytes, AuthError>)
      modifies this
      ensures Step(View(), r) == ClientFinal(k, old(View()))
    {
      hide Xor, Encode, Letter;
      if phase != FirstSent {
        return Err(OutOfOrder);
      }
      if serverFirst == None || saltedPassword == None {
        return Err(OutOfOrder);
      }
      var clientKey := k.hmac(mechanism, saltedPassword.value, CLIENT_KEY_LABEL);
      var storedKey := k.hash(mechanism, clientKey);
      var withoutProof := WithoutProof(serverFirst.value.nonce);
      authMessage := authMessage + withoutProof;
      var proof := Xor(clientKey, k.hmac(mechanism, storedKey, authMessage));
      phase := FinalSent;
      return Ok(withoutProof + ([COMMA] + Letter(PROOF_KEY, Encode(proof))));
    }

    method TakeServerFinal(k: Crypto, msg: bytes) returns (r: Result<bytes, AuthError>)
      modifies this
      ensures Step(View(), r) == ReceiveServerFinal(k, old(View()), msg)
    {
      hide ParseAttributes, Decode;
      if phase != FinalSent {
        return Err(OutOfOrder);
      }
      var attrs := ParseAttributes(msg);
      if attrs == None {
        return Err(InvalidMessage(MalformedAttribute));
      }
      if |attrs.value| != 1 {
        return Err(InvalidMessage(MalformedServerFinal));
      }
      var a := attrs.value[0];
      if a.key == [ERROR_KEY] {
        return Err(Failure(a.value));
      }
      if a.key != [VERIFIER_KEY] {
        return Err(InvalidMessage(UnexpectedServerFinal));
      }
      var received := Decode(a.value);
      if received == None {
        return Err(InvalidMessage(InvalidServerSignature));
      }
      if saltedPassword == None {
        return Err(OutOfOrder);
      }
      var serverKey := k.hmac(mechanism, saltedPassword.value, SERVER_KEY_LABEL);
      if k.hmac(mechanism, serverKey, authMessage) != received.value {
        return Err(ServerSignatureMismatch);
      }
      phase := ClientDone;
      return Ok([]);
    }
  }

  lemma CollectSuffix(f: FinalAttributes, attrs: seq<Attribute>, i: nat)
    requires i < |attrs|
    ensures Collect(f, attrs[i..]) ==
            if CollectOne(f, attrs[i]).Err? then Err(CollectOne(f, attrs[i]).error)
            else Collect(CollectOne(f, attrs[i]).value, attrs[i + 1..])
  {
    hide CollectOne;
    assert attrs[i..][1..] == attrs[i + 1..];
  }

  lemma CollectNothing(f: FinalAttributes)
    ensures Collect(f, []) == Ok(f)
  {
  }

  /** The attribute loop and the checks of `handle_client_final`. */
  method ReadClientProof(ghost s: Server, fullNonce: bytes, msg: bytes) returns (r: Result<bytes, AuthError>)
    requires fullNonce == FullNonce(s)
    ensures r == ClientProof(s, msg)
  {
    hide ParseAttributes, Decode, Collect;
    var channelBinding: Option<bytes>, nonce: Option<bytes>, proof: Option<bytes> := None, None, None;
    var attrs := ParseAttributes(msg);
    if attrs == None {
      return Err(InvalidMessage(MalformedAttribute));
    }
    ghost var all := Collect(FinalAttributes(None, None, None), attrs.value);
    assert attrs.value[0..] == attrs.value;
    for i := 0 to |attrs.value|
      invariant Collect(FinalAttributes(channelBinding, nonce, proof), attrs.value[i..]) == all
    {
      var a := attrs.value[i];
      CollectSuffix(FinalAttributes(channelBinding, nonce, proof), attrs.value, i);
      if a.key == [CHANNEL_BINDING_KEY] && channelBinding == None {
        channelBinding := Some(a.value);
      } else if a.key == [NONCE_KEY] && nonce == None {
        nonce := Some(a.value);
      } else if a.key == [PROOF_KEY] && proof == None {
        proof := Some(a.value);
      } else {
        return Err(InvalidMessage(UnexpectedAttribute));
      }
    }
    CollectNothing(FinalAttributes(channelBinding, nonce, proof));
    assert attrs.value[|attrs.value|..] == [];
    if channelBinding != Some(NO_CHANNEL_BINDING) {
      return Err(InvalidMessage(ExpectedChannelBinding));
    }
    if nonce != Some(fullNonce) {
      return Err(NonceMismatch);
    }
    if proof == None {
      return Err(InvalidMessage(MissingProof));
    }
    var decoded := Decode(proof.value);
    if decoded == None {
      return Err(InvalidMessage(InvalidProof));
    }
    return Ok(decoded.value);
  }

  class ScramServer {
    const mechanism: Mechanism
    const serverNonce: bytes
    var clientFirstBare: bytes
    var serverFirstMessage: bytes
    var phase: ServerPhase
    var username: bytes
    var clientNonce: bytes
    var credentials: Option<Credentials>

    ghost function View(): Server
      reads this
    {
      Server(mechanism, serverNonce, clientFirstBare, serverFirstMessage, phase, username, clientNonce, credentials)
    }

    constructor (m: Mechanism, nonce: bytes)
      ensures View() == NewServer(m, nonce)
    {
      mechanism := m;
      serverNonce := nonce;
      clientFirstBare := [];
      serverFirstMessage := [];
      phase := ExpectClientFirst;
      username := [];
      clientNonce := [];
      credentials := None;
    }

    method TakeClientFirst(msg: bytes, user: bytes, stored: Credentials) returns (r: Result<bytes, AuthError>)
      modifies this
      ensures Step(View(), r) == HandleClientFirst(old(View()), msg, user, stored)
    {
      hide ServerFirstMessage, ClientNonce;
      if phase != ExpectClientFirst {
        return Err(OutOfOrder);
      }
      var bare := StripGs2(msg);
      if bare.Err? {
        return Err(bare.error);
      }
      var nonce := ClientNonce(bare.value);
      if nonce.Err? {
        return Err(nonce.error);
      }
      clientFirstBare := bare.value;
      clientNonce := nonce.value;
      username := user;
      credentials := Some(stored);
      var fullNonce := nonce.value + serverNonce;
      serverFirstMessage := ServerFirstMessage(fullNonce, stored);
      phase := ExpectClientFinal;
      return Ok(serverFirstMessage);
    }

    method TakeClientFinal(k: Crypto, msg: bytes) returns (r: Result<bytes, AuthError>)
      modifies this
      ensures Step(View(), r) == HandleClientFinal(k, old(View()), msg)
    {
      hide ClientProof, Xor, Encode, WithoutProof;
      if phase != ExpectClientFinal || credentials == None {
        return Err(OutOfOrder);
      }
      var fullNonce := clientNonce + serverNonce;
      var proof := ReadClientProof(View(), fullNonce, msg);
      if proof.Err? {
        return Err(proof.error);
      }
      var authMessage := clientFirstBare + ([COMMA] + (serverFirstMessage + ([COMMA] + WithoutProof(fullNonce))));
      var signature := k.hmac(mechanism, credentials.value.storedKey, authMessage);
      if |proof.value| != |signature| {
        return Err(InvalidMessage(WrongProofLength));
      }
      var clientKey := Xor(proof.value, signature);
      if k.hash(mechanism, clientKey) != credentials.value.storedKey {
        return Err(ClientProofMismatch);
      }
      var serverSignature := k.hmac(mechanism, credentials.value.serverKey, authMessage);
      phase := ServerDone;
      return Ok(Letter(VERIFIER_KEY, Encode(serverSignature)));
    }
  }
}
