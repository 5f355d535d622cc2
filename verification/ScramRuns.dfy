/** Whole runs of the SCRAM machines: the honest exchange, and every sequence of
    calls on either side (mongo_common/src/auth/scram.rs). */
module ScramRuns {
  import opened Bytes
  import opened Base64
  import opened ScramText
  import opened Scram
  import opened ScramTheorems

  // ------------------------------------------------------------ the honest exchange

  /** All six steps, each fed with the other side's last message. */
  function Exchange(k: Crypto, client: Client, server: Server, username: bytes, credentials: Credentials):
    Result<(Client, Server), AuthError>
  {
    var a := ClientFirst(client);
    if a.result.Err? then Err(a.result.error)
    else
      var b := HandleClientFirst(server, a.result.value, username, credentials);
      if b.result.Err? then Err(b.result.error)
      else
        var c := ReceiveServerFirst(k, a.state, b.result.value);
        if c.result.Err? then Err(c.result.error)
        else
          var d := ClientFinal(k, c.state);
          if d.result.Err? then Err(d.result.error)
          else
            var e := HandleClientFinal(k, b.state, d.result.value);
            if e.result.Err? then Err(e.result.error)
            else
              var f := ReceiveServerFinal(k, d.state, e.result.value);
              if f.result.Err? then Err(f.result.error) else Ok((f.state, e.state))
  }

  /** The server after the client-first message of `c`. */
  function ServerAfterFirst(m: Mechanism, c: Client, nonce: bytes, credentials: Credentials): Server {
    Server(m, nonce, ClientFirstBare(c.username, c.clientNonce),
           ServerFirstMessage(c.clientNonce + nonce, credentials), ExpectClientFinal, c.username, c.clientNonce,
           Some(credentials))
  }

  lemma FirstRound(c: Client, nonce: bytes, credentials: Credentials)
    requires c.phase == Init && c.clientNonce != [] && CommaFree(c.clientNonce)
    ensures var a := ClientFirst(c);
            && a.result.Ok?
            && HandleClientFirst(NewServer(c.mechanism, nonce), a.result.value, c.username, credentials) ==
               Step(ServerAfterFirst(c.mechanism, c, nonce, credentials),
                    Ok(ServerFirstMessage(c.clientNonce + nonce, credentials)))
  {
    hide ClientNonce, ClientFirstBare, ServerFirstMessage, StripGs2;
    StripGs2Of(ClientFirstBare(c.username, c.clientNonce));
    ClientNonceOf(c.username, c.clientNonce);
  }

  /** The client after reading the server-first message. */
  lemma SecondRound(k: Crypto, c: Client, nonce: bytes, credentials: Credentials)
    requires c.phase == Init && c.serverFirst == None
    requires c.clientNonce != [] && CommaFree(c.clientNonce) && CommaFree(nonce)
    requires 1 <= credentials.iterations <= MAX_ITERATIONS
    ensures var full := c.clientNonce + nonce;
            var salted := k.pbkdf2(c.mechanism, c.password, credentials.salt, credentials.iterations);
            var msg := ServerFirstMessage(full, credentials);
            ReceiveServerFirst(k, ClientFirst(c).state, msg) ==
            Step(c.(serverFirst := Some(ServerFirst(full, credentials.salt, credentials.iterations)),
                    saltedPassword := Some(salted),
                    authMessage := ClientFirstBare(c.username, c.clientNonce) + ([COMMA] + (msg + [COMMA])),
                    phase := FirstSent),
                 Ok([]))
  {
    hide ClientFirstBare, ServerFirstMessage, ParseServerFirst;
    ParseServerFirstOf(c.clientNonce + nonce, credentials);
  }

  lemma TranscriptShape(m: Mechanism, c: Client, nonce: bytes, credentials: Credentials)
    ensures var s := ServerAfterFirst(m, c, nonce, credentials);
            (ClientFirstBare(c.username, c.clientNonce) + ([COMMA] + (s.serverFirstMessage + [COMMA])))
            + WithoutProof(c.clientNonce + nonce) == AuthMessage(s)
  {
    hide ClientFirstBare, ServerFirstMessage, WithoutProof;
  }

  /** Whatever the credentials, when the client accepts the server's first
      message both sides go on to sign the same transcript, byte for byte. */
  lemma SameTranscript(k: Crypto, c: Client, nonce: bytes, credentials: Credentials)
    requires c.phase == Init && c.serverFirst == None
    requires c.clientNonce != [] && CommaFree(c.clientNonce) && CommaFree(nonce)
    ensures var first := ClientFirst(c).result.value;
            var s := HandleClientFirst(NewServer(c.mechanism, nonce), first, c.username, credentials).state;
            var read := ReceiveServerFirst(k, ClientFirst(c).state, s.serverFirstMessage);
            read.result.Ok? ==>
              && ClientFinal(k, read.state).result.Ok?
              && ClientFinal(k, read.state).state.authMessage == AuthMessage(s)
  {
    hide ClientFirstBare, ServerFirstMessage, WithoutProof, ParseServerFirst, HandleClientFirst, Decode,
      ReadIterations, ParseAttributes, AuthMessage, Encode;
    FirstRound(c, nonce, credentials);
    TranscriptShape(c.mechanism, c, nonce, credentials);
    ServerFirstAttributes(c.clientNonce + nonce, credentials);
    ServerFirstIff(ServerFirstMessage(c.clientNonce + nonce, credentials));
  }

  lemma FinalPartsOf(nonce: bytes, proof: bytes)
    requires CommaFree(nonce)
    ensures multiset(Split(WithoutProof(nonce) + ([COMMA] + Letter(PROOF_KEY, Encode(proof))))) ==
            FinalParts(nonce, proof)
  {
    hide Split, Encode, Letter;
    var c, r := Letter(CHANNEL_BINDING_KEY, NO_CHANNEL_BINDING), Letter(NONCE_KEY, nonce);
    var p := Letter(PROOF_KEY, Encode(proof));
    EncodeIsPlain(proof);
    LetterCommaFree(CHANNEL_BINDING_KEY, NO_CHANNEL_BINDING);
    LetterCommaFree(NONCE_KEY, nonce);
    LetterCommaFree(PROOF_KEY, Encode(proof));
    assert WithoutProof(nonce) + ([COMMA] + p) == c + ([COMMA] + (r + ([COMMA] + p)));
    SplitFirst(c, r + ([COMMA] + p));
    SplitFirst(r, p);
    SplitOne(p);
    assert [c] + ([r] + [p]) == [c, r, p];
  }

  /** The server unmasks the client key the proof hides. */
  lemma ClientKeyRecovered(k: Crypto, m: Mechanism, clientKey: bytes, transcript: bytes)
    requires FixedLength(k) && |clientKey| == DigestLen(m)
    ensures var signature := k.hmac(m, k.hash(m, clientKey), transcript);
            |Xor(clientKey, signature)| == |signature| && Xor(Xor(clientKey, signature), signature) == clientKey
  {
    hide Xor;
    XorTwice(clientKey, k.hmac(m, k.hash(m, clientKey), transcript));
  }

  /** The client checks a server-final message by its signature alone. */
  lemma VerifierAccepted(k: Crypto, c: Client, signature: bytes)
    requires c.saltedPassword.Some?
    requires var serverKey := k.hmac(c.mechanism, c.saltedPassword.value, SERVER_KEY_LABEL);
             signature == k.hmac(c.mechanism, serverKey, c.authMessage)
    ensures CheckServerFinal(k, c, Letter(VERIFIER_KEY, Encode(signature))) == Ok(())
  {
    hide ParseAttributes, Decode, Encode, Letter;
    EncodeIsPlain(signature);
    AttributesSingle(VERIFIER_KEY, Encode(signature));
    DecodeOfEncode(signature);
  }

  /** An error the server sends instead of its signature reaches the caller word
      for word, and the client is as it was. */
  lemma ServerErrorIsReported(k: Crypto, c: Client, text: bytes)
    requires c.phase == FinalSent && CommaFree(text)
    ensures ReceiveServerFinal(k, c, [101, 61] + text) == Step(c, Err(Failure(text))) // e=
  {
    hide ParseAttributes, Decode;
    assert [101, 61] + text == Letter(ERROR_KEY, text);
    AttributesSingle(ERROR_KEY, text);
  }

  lemma ServerAccepts(k: Crypto, s: Server, credentials: Credentials, msg: bytes, proof: bytes)
    requires multiset(Split(msg)) == FinalParts(FullNonce(s), proof)
    requires Proves(k, s.mechanism, credentials, AuthMessage(s), proof)
    ensures CheckClientFinal(k, s, credentials, msg) ==
            Ok(Letter(VERIFIER_KEY, Encode(k.hmac(s.mechanism, credentials.serverKey, AuthMessage(s)))))
  {
    hide Split, ClientProof, AuthMessage, Encode, Letter, FinalParts;
    ClientProofIff(s, msg, proof);
  }

  /** The last three steps: the proof convinces the server, and the server's
      signature convinces the client. */
  lemma LastRounds(k: Crypto, c: Client, s: Server, credentials: Credentials, salted: bytes)
    requires FixedLength(k)
    requires c.phase == FirstSent && c.serverFirst.Some? && c.saltedPassword == Some(salted)
    requires c.serverFirst.value.nonce == FullNonce(s) && CommaFree(FullNonce(s))
    requires s.phase == ExpectClientFinal && s.credentials == Some(credentials) && s.mechanism == c.mechanism
    requires c.authMessage + WithoutProof(FullNonce(s)) == AuthMessage(s)
    requires credentials.storedKey == k.hash(s.mechanism, k.hmac(s.mechanism, salted, CLIENT_KEY_LABEL))
    requires credentials.serverKey == k.hmac(s.mechanism, salted, SERVER_KEY_LABEL)
    ensures var d := ClientFinal(k, c);
            && d.result.Ok?
            && d.state == c.(authMessage := AuthMessage(s), phase := FinalSent)
            && ClientProof(s, d.result.value).Ok?
            && Xor(ClientProof(s, d.result.value).value, k.hmac(s.mechanism, credentials.storedKey, AuthMessage(s))) ==
               k.hmac(s.mechanism, salted, CLIENT_KEY_LABEL)
            && var e := HandleClientFinal(k, s, d.result.value);
               && e.result.Ok?
               && e.state == s.(phase := ServerDone)
               && ReceiveServerFinal(k, d.state, e.result.value) == Step(d.state.(phase := ClientDone), Ok([]))
  {
    hide WithoutProof, AuthMessage, Xor, Encode, Split, FinalParts, ClientProof, CheckServerFinal,
      CheckClientFinal, Letter;
    var clientKey := k.hmac(s.mechanism, salted, CLIENT_KEY_LABEL);
    var proof := Xor(clientKey, k.hmac(s.mechanism, credentials.storedKey, AuthMessage(s)));
    var msg := ClientFinal(k, c).result.value;
    FinalPartsOf(FullNonce(s), proof);
    ClientKeyRecovered(k, s.mechanism, clientKey, AuthMessage(s));
    ClientProofIff(s, msg, proof);
    ServerAccepts(k, s, credentials, msg, proof);
    VerifierAccepted(k, ClientFinal(k, c).state, k.hmac(s.mechanism, credentials.serverKey, AuthMessage(s)));
  }

  /** An honest exchange always completes: both sides are done, with the same
      transcript, for every username, password, salt and pair of comma-free
      nonces. */
  lemma HonestExchange(k: Crypto, m: Mechanism, username: bytes, password: bytes, salt: bytes, iterations: u32,
                       clientNonce: bytes, serverNonce: bytes)
    requires FixedLength(k)
    requires 1 <= iterations <= MAX_ITERATIONS
    requires clientNonce != [] && CommaFree(clientNonce) && CommaFree(serverNonce)
    ensures var credentials := Derive(k, m, EffectivePassword(k, m, username, password), salt, iterations);
            var client, server := NewClient(k, m, username, password, clientNonce), NewServer(m, serverNonce);
            var done := Exchange(k, client, server, username, credentials);
            && done.Ok?
            && done.value.0.phase == ClientDone
            && done.value.1.phase == ServerDone
            && done.value.0.authMessage == AuthMessage(done.value.1)
            && done.value.1.username == username
  {
    hide HandleClientFirst, ReceiveServerFirst, ClientFinal, HandleClientFinal, ReceiveServerFinal, AuthMessage,
      EffectivePassword, WithoutProof, ServerFirstMessage, ClientFirstBare;
    var c := NewClient(k, m, username, password, clientNonce);
    var credentials := Derive(k, m, EffectivePassword(k, m, username, password), salt, iterations);
    var s := ServerAfterFirst(m, c, serverNonce, credentials);
    FirstRound(c, serverNonce, credentials);
    SecondRound(k, c, serverNonce, credentials);
    TranscriptShape(m, c, serverNonce, credentials);
    var c2 := ReceiveServerFirst(k, ClientFirst(c).state, s.serverFirstMessage).state;
    LastRounds(k, c2, s, credentials, c2.saltedPassword.value);
    PhaseIsNotSigned(s);
  }

  lemma PhaseIsNotSigned(s: Server)
    ensures AuthMessage(s.(phase := ServerDone)) == AuthMessage(s)
  {
  }

  // ------------------------------------------------------------ every client run

  datatype ClientCall = SendFirst | GetServerFirst(msg: bytes) | SendFinal | GetServerFinal(msg: bytes)

  function ClientStep(k: Crypto, c: Client, call: ClientCall): Step<Client> {
    match call
    case SendFirst => ClientFirst(c)
    case GetServerFirst(msg) => ReceiveServerFirst(k, c, msg)
    case SendFinal => ClientFinal(k, c)
    case GetServerFinal(msg) => ReceiveServerFinal(k, c, msg)
  }

  function RunClient(k: Crypto, c: Client, calls: seq<ClientCall>): Client
    decreases calls
  {
    if calls == [] then c else RunClient(k, ClientStep(k, c, calls[0]).state, calls[1..])
  }

  /** The calls of a run that succeed. */
  function AcceptedByClient(k: Crypto, c: Client, calls: seq<ClientCall>): seq<ClientCall>
    decreases calls
  {
    if calls == [] then []
    else
      var step := ClientStep(k, c, calls[0]);
      (if step.result.Ok? then [calls[0]] else []) + AcceptedByClient(k, step.state, calls[1..])
  }

  lemma ClientRejectionIsSilent(k: Crypto, c: Client, call: ClientCall)
    ensures ClientStep(k, c, call).result.Err? ==> ClientStep(k, c, call).state == c
  {
  }

  /** The four calls of the protocol, in order, as far as they go. */
  predicate ClientInOrder(calls: seq<ClientCall>) {
    && |calls| <= 4
    && (|calls| > 0 ==> calls[0].SendFirst?)
    && (|calls| > 1 ==> calls[1].GetServerFirst?)
    && (|calls| > 2 ==> calls[2].SendFinal?)
    && (|calls| > 3 ==> calls[3].GetServerFinal?)
  }

  function PhaseAfter(n: nat): ClientPhase {
    if n == 0 then Init else if n <= 2 then FirstSent else if n == 3 then FinalSent else ClientDone
  }

  /** What a client has signed after the accepted calls. */
  function ClientTranscript(username: bytes, nonce: bytes, calls: seq<ClientCall>): bytes
    requires ClientInOrder(calls)
    requires |calls| > 2 ==> ParseServerFirst(calls[1].msg).Ok?
  {
    var bare := ClientFirstBare(username, nonce);
    if |calls| == 0 then []
    else if |calls| == 1 then bare
    else if |calls| == 2 then bare + ([COMMA] + (calls[1].msg + [COMMA]))
    else bare + ([COMMA] + (calls[1].msg + ([COMMA] + WithoutProof(ParseServerFirst(calls[1].msg).value.nonce))))
  }

  function SaltedBy(k: Crypto, c: Client, first: ServerFirst): bytes {
    k.pbkdf2(c.mechanism, c.password, first.salt, first.iterations)
  }

  /** `c` is the client `c0` after exactly the calls `done`, all of them
      accepted: the protocol order is kept, the nonce was extended, the keys and
      the transcript come from the messages exchanged, and a finished client has
      seen the one signature the password determines. */
  predicate ClientTrail(k: Crypto, c0: Client, done: seq<ClientCall>, c: Client) {
    && ClientInOrder(done)
    && c.mechanism == c0.mechanism && c.username == c0.username && c.password == c0.password
    && c.clientNonce == c0.clientNonce
    && c.phase == PhaseAfter(|done|)
    && (|done| < 2 ==> c.serverFirst == None && c.saltedPassword == None)
    && (|done| >= 2 ==>
          && ParseServerFirst(done[1].msg).Ok?
          && c.clientNonce <= ParseServerFirst(done[1].msg).value.nonce
          && c.serverFirst == Some(ParseServerFirst(done[1].msg).value)
          && c.saltedPassword == Some(SaltedBy(k, c0, ParseServerFirst(done[1].msg).value)))
    && c.authMessage == ClientTranscript(c0.username, c0.clientNonce, done)
    && (|done| == 4 ==>
          done[3].msg == Verifier(k, c.mechanism, c.saltedPassword.value, c.authMessage))
  }

  /** `v=` with the signature of the transcript under the server key. */
  function Verifier(k: Crypto, m: Mechanism, salted: bytes, transcript: bytes): bytes {
    Letter(VERIFIER_KEY, Encode(k.hmac(m, k.hmac(m, salted, SERVER_KEY_LABEL), transcript)))
  }

  /** The client accepts one server-final message only. */
  lemma VerifierIsExact(k: Crypto, c: Client, msg: bytes)
    requires CheckServerFinal(k, c, msg).Ok?
    ensures c.saltedPassword.Some?
    ensures msg == Verifier(k, c.mechanism, c.saltedPassword.value, c.authMessage)
  {
    hide ParseAttributes, Decode, Encode, Letter;
    var a := ParseAttributes(msg).value[0];
    SingleAttribute(msg);
    LetterIsAttribute(a);
    EncodeOfDecode(a.value);
  }

  lemma ClientTrailStep(k: Crypto, c0: Client, done: seq<ClientCall>, c: Client, call: ClientCall)
    requires ClientTrail(k, c0, done, c)
    requires ClientStep(k, c, call).result.Ok?
    ensures ClientTrail(k, c0, done + [call], ClientStep(k, c, call).state)
  {
    hide ParseServerFirst, ClientFirstBare, WithoutProof, CheckServerFinal, Verifier, Encode, Letter, Xor;
    var next := done + [call];
    match call
    case SendFirst =>
    case GetServerFirst(msg) =>
    case SendFinal =>
      var bare := ClientFirstBare(c0.username, c0.clientNonce);
      var final := WithoutProof(c.serverFirst.value.nonce);
      TranscriptGrows(bare, done[1].msg, final);
    case GetServerFinal(msg) =>
      VerifierIsExact(k, c, msg);
  }

  lemma TranscriptGrows(bare: bytes, msg: bytes, final: bytes)
    ensures (bare + ([COMMA] + (msg + [COMMA]))) + final == bare + ([COMMA] + (msg + ([COMMA] + final)))
  {
  }

  lemma {:induction false} ClientTrailRun(k: Crypto, c0: Client, done: seq<ClientCall>, c: Client,
                                          calls: seq<ClientCall>)
    requires ClientTrail(k, c0, done, c)
    ensures ClientTrail(k, c0, done + AcceptedByClient(k, c, calls), RunClient(k, c, calls))
    decreases calls
  {
    hide ClientTrail, ClientStep;
    if calls == [] {
      assert done + [] == done;
    } else {
      var step := ClientStep(k, c, calls[0]);
      var rest := AcceptedByClient(k, step.state, calls[1..]);
      if step.result.Ok? {
        ClientTrailStep(k, c0, done, c, calls[0]);
        ClientTrailRun(k, c0, done + [calls[0]], step.state, calls[1..]);
        assert done + [calls[0]] + rest == done + ([calls[0]] + rest);
      } else {
        ClientRejectionIsSilent(k, c, calls[0]);
        ClientTrailRun(k, c0, done, c, calls[1..]);
        assert [] + rest == rest;
      }
    }
  }

  /** Over every sequence of calls on a new client. */
  lemma EveryClientRun(k: Crypto, m: Mechanism, username: bytes, password: bytes, nonce: bytes, calls: seq<ClientCall>)
    ensures var c := NewClient(k, m, username, password, nonce);
            ClientTrail(k, c, AcceptedByClient(k, c, calls), RunClient(k, c, calls))
  {
    hide ParseServerFirst, ClientFirstBare, WithoutProof, EffectivePassword, Verifier, RunClient,
      AcceptedByClient;
    var c := NewClient(k, m, username, password, nonce);
    ClientTrailRun(k, c, [], c, calls);
    assert [] + AcceptedByClient(k, c, calls) == AcceptedByClient(k, c, calls);
  }

  /** Dropping the rejected calls from a run changes nothing. */
  lemma {:induction false} ClientIgnoresRejected(k: Crypto, c: Client, calls: seq<ClientCall>)
    ensures RunClient(k, c, AcceptedByClient(k, c, calls)) == RunClient(k, c, calls)
    decreases calls
  {
    hide ClientStep;
    if calls != [] {
      var step := ClientStep(k, c, calls[0]);
      ClientIgnoresRejected(k, step.state, calls[1..]);
      var rest := AcceptedByClient(k, step.state, calls[1..]);
      if step.result.Ok? {
        assert ([calls[0]] + rest)[1..] == rest;
      } else {
        ClientRejectionIsSilent(k, c, calls[0]);
        assert [] + rest == rest;
      }
    }
  }

  // ------------------------------------------------------------ every server run

  datatype ServerCall =
    | GetClientFirst(msg: bytes, username: bytes, credentials: Credentials)
    | GetClientFinal(msg: bytes)

  function ServerStep(k: Crypto, s: Server, call: ServerCall): Step<Server> {
    match call
    case GetClientFirst(msg, username, credentials) => HandleClientFirst(s, msg, username, credentials)
    case GetClientFinal(msg) => HandleClientFinal(k, s, msg)
  }

  function RunServer(k: Crypto, s: Server, calls: seq<ServerCall>): Server
    decreases calls
  {
    if calls == [] then s else RunServer(k, ServerStep(k, s, calls[0]).state, calls[1..])
  }

  function AcceptedByServer(k: Crypto, s: Server, calls: seq<ServerCall>): seq<ServerCall>
    decreases calls
  {
    if calls == [] then []
    else
      var step := ServerStep(k, s, calls[0]);
      (if step.result.Ok? then [calls[0]] else []) + AcceptedByServer(k, step.state, calls[1..])
  }

  lemma ServerRejectionIsSilent(k: Crypto, s: Server, call: ServerCall)
    ensures ServerStep(k, s, call).result.Err? ==> ServerStep(k, s, call).state == s
  {
  }

  predicate ServerInOrder(calls: seq<ServerCall>) {
    && |calls| <= 2
    && (|calls| > 0 ==> calls[0].GetClientFirst?)
    && (|calls| > 1 ==> calls[1].GetClientFinal?)
  }

  function ServerPhaseAfter(n: nat): ServerPhase {
    if n == 0 then ExpectClientFirst else if n == 1 then ExpectClientFinal else ServerDone
  }

  /** The client-first message opened the exchange that `s` is in. */
  predicate Opened(s0: Server, call: ServerCall, s: Server) {
    && call.GetClientFirst?
    && StripGs2(call.msg).Ok?
    && ClientNonce(StripGs2(call.msg).value).Ok?
    && s.clientFirstBare == StripGs2(call.msg).value
    && s.clientNonce == ClientNonce(StripGs2(call.msg).value).value
    && s.serverFirstMessage == ServerFirstMessage(s.clientNonce + s0.serverNonce, call.credentials)
    && s.username == call.username
    && s.credentials == Some(call.credentials)
  }

  /** The client-final message proves knowledge of the stored key. */
  ghost predicate Proven(k: Crypto, s: Server, call: ServerCall) {
    && call.GetClientFinal?
    && s.credentials.Some?
    && exists proof :: multiset(Split(call.msg)) == FinalParts(FullNonce(s), proof)
                       && Proves(k, s.mechanism, s.credentials.value, AuthMessage(s), proof)
  }

  /** `s` is the server `s0` after exactly the calls `done`, all accepted. */
  ghost predicate ServerTrail(k: Crypto, s0: Server, done: seq<ServerCall>, s: Server) {
    && ServerInOrder(done)
    && s.mechanism == s0.mechanism && s.serverNonce == s0.serverNonce
    && s.phase == ServerPhaseAfter(|done|)
    && (|done| == 0 ==> s == s0)
    && (|done| > 0 ==> Opened(s0, done[0], s))
    && (|done| > 1 ==> Proven(k, s, done[1]))
  }

  lemma ServerTrailStep(k: Crypto, s0: Server, done: seq<ServerCall>, s: Server, call: ServerCall)
    requires ServerTrail(k, s0, done, s)
    requires ServerStep(k, s, call).result.Ok?
    ensures ServerTrail(k, s0, done + [call], ServerStep(k, s, call).state)
  {
    hide StripGs2, ClientNonce, ServerFirstMessage, CheckClientFinal, Split, FinalParts, Proves, AuthMessage;
    if call.GetClientFinal? {
      FinalAcceptedIff(k, s, call.msg);
      PhaseIsNotSigned(s);
      assert Proven(k, s, call);
      assert Proven(k, s.(phase := ServerDone), call);
    }
  }

  lemma {:induction false} ServerTrailRun(k: Crypto, s0: Server, done: seq<ServerCall>, s: Server,
                                          calls: seq<ServerCall>)
    requires ServerTrail(k, s0, done, s)
    ensures ServerTrail(k, s0, done + AcceptedByServer(k, s, calls), RunServer(k, s, calls))
    decreases calls
  {
    hide ServerTrail, ServerStep;
    if calls == [] {
      assert done + [] == done;
    } else {
      var step := ServerStep(k, s, calls[0]);
      var rest := AcceptedByServer(k, step.state, calls[1..]);
      if step.result.Ok? {
        ServerTrailStep(k, s0, done, s, calls[0]);
        ServerTrailRun(k, s0, done + [calls[0]], step.state, calls[1..]);
        assert done + [calls[0]] + rest == done + ([calls[0]] + rest);
      } else {
        ServerRejectionIsSilent(k, s, calls[0]);
        ServerTrailRun(k, s0, done, s, calls[1..]);
        assert [] + rest == rest;
      }
    }
  }

  /** Over every sequence of calls on a new server: at most one client-first and
      then one client-final is accepted, and a finished server has a proof of
      the stored key over the transcript of the messages exchanged. */
  lemma EveryServerRun(k: Crypto, m: Mechanism, nonce: bytes, calls: seq<ServerCall>)
    ensures var s := NewServer(m, nonce);
            ServerTrail(k, s, AcceptedByServer(k, s, calls), RunServer(k, s, calls))
  {
    hide Opened, Proven, RunServer, AcceptedByServer;
    var s := NewServer(m, nonce);
    ServerTrailRun(k, s, [], s, calls);
    assert [] + AcceptedByServer(k, s, calls) == AcceptedByServer(k, s, calls);
  }

  lemma {:induction false} ServerIgnoresRejected(k: Crypto, s: Server, calls: seq<ServerCall>)
    ensures RunServer(k, s, AcceptedByServer(k, s, calls)) == RunServer(k, s, calls)
    decreases calls
  {
    hide ServerStep;
    if calls != [] {
      var step := ServerStep(k, s, calls[0]);
      ServerIgnoresRejected(k, step.state, calls[1..]);
      var rest := AcceptedByServer(k, step.state, calls[1..]);
      if step.result.Ok? {
        assert ([calls[0]] + rest)[1..] == rest;
      } else {
        ServerRejectionIsSilent(k, s, calls[0]);
        assert [] + rest == rest;
      }
    }
  }
}
