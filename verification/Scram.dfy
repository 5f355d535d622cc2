/** The SCRAM client and server as functions from a state and a message to the
    next state and a result (mongo_common/src/auth/scram.rs; sections 3 and 5 of
    RFC 5802, section 3 of RFC 7677). The cryptographic primitives are
    parameters. */
module Scram {
  import opened Bytes
  import opened Text
  import opened Base64
  import opened ScramText

  datatype Mechanism = Sha1 | Sha256

  datatype Fault =
    | MalformedAttribute
    | InvalidSalt
    | InvalidIterations
    | IterationsOutOfRange
    | MissingServerNonce
    | MissingSalt
    | MissingIterations
    | MalformedServerFinal
    | InvalidServerSignature
    | UnexpectedServerFinal
    | ChannelBindingUnsupported
    | InvalidGs2Header
    | MandatoryExtension
    | ExpectedUsername
    | ExpectedNonce
    | MissingClientNonce
    | UnexpectedAttribute
    | ExpectedChannelBinding
    | MissingProof
    | InvalidProof
    | WrongProofLength

  datatype AuthError =
    | InvalidMessage(fault: Fault)
    | Failure(text: bytes)
    | NonceMismatch
    | ServerSignatureMismatch
    | ClientProofMismatch
    | OutOfOrder

  const USERNAME_KEY: byte := 110
  const NONCE_KEY: byte := 114
  const SALT_KEY: byte := 115
  const ITERATION_KEY: byte := 105
  const CHANNEL_BINDING_KEY: byte := 99
  const PROOF_KEY: byte := 112
  const VERIFIER_KEY: byte := 118
  const ERROR_KEY: byte := 101
  const EXTENSION_KEY: byte := 109

  const NO_CHANNEL_BINDING: bytes := [98, 105, 119, 115] // biws
  const GS2_HEADER: bytes := [110, 44, 44] // n,,
  const GS2_UNSUPPORTED: bytes := [121, 44, 44] // y,,
  const GS2_BINDING: bytes := [112, 61] // p=
  const CLIENT_KEY_LABEL: bytes := [67, 108, 105, 101, 110, 116, 32, 75, 101, 121] // Client Key
  const SERVER_KEY_LABEL: bytes := [83, 101, 114, 118, 101, 114, 32, 75, 101, 121] // Server Key
  const PASSWORD_INFIX: bytes := [58, 109, 111, 110, 103, 111, 58] // :mongo:
  const MAX_ITERATIONS := 1_000_000

  // ------------------------------------------------------------ primitives

  datatype Crypto = Crypto(
    hash: (Mechanism, bytes) -> bytes,
    hmac: (Mechanism, bytes, bytes) -> bytes,
    pbkdf2: (Mechanism, bytes, bytes, u32) -> bytes,
    md5: bytes -> bytes)

  function DigestLen(m: Mechanism): nat {
    if m == Sha1 then 20 else 32
  }

  /** HMAC has a fixed output length; nothing else is assumed of it. */
  ghost predicate FixedLength(k: Crypto) {
    forall m, key, input :: |k.hmac(m, key, input)| == DigestLen(m)
  }

  function HexDigit(v: nat): byte
    requires v < 16
  {
    if v < 10 then 48 + v else 87 + v
  }

  function LowerHex(b: bytes): bytes {
    if b == [] then [] else [HexDigit(b[0] / 16), HexDigit(b[0] % 16)] + LowerHex(b[1..])
  }

  function EffectivePassword(k: Crypto, m: Mechanism, username: bytes, password: bytes): bytes {
    if m == Sha1 then LowerHex(k.md5(username + PASSWORD_INFIX + password)) else password
  }

  datatype Credentials = Credentials(salt: bytes, iterations: u32, storedKey: bytes, serverKey: bytes)

  function Derive(k: Crypto, m: Mechanism, password: bytes, salt: bytes, iterations: u32): Credentials {
    var salted := k.pbkdf2(m, password, salt, iterations);
    Credentials(salt, iterations, k.hash(m, k.hmac(m, salted, CLIENT_KEY_LABEL)), k.hmac(m, salted, SERVER_KEY_LABEL))
  }

  /** A step: the state after it and what it returns. */
  datatype Step<S> = Step(state: S, result: Result<bytes, AuthError>)

  function Attributes(msg: bytes): Result<seq<Attribute>, AuthError> {
    var attrs := ParseAttributes(msg);
    if attrs == None then Err(InvalidMessage(MalformedAttribute)) else Ok(attrs.value)
  }

  // ------------------------------------------------------------ server-first

  datatype ServerFirst = ServerFirst(nonce: bytes, salt: bytes, iterations: u32)

  datatype Gathered = Gathered(nonce: Option<bytes>, salt: Option<bytes>, iterations: Option<u32>)

  function ReadSalt(value: bytes): Result<bytes, AuthError> {
    var salt := Decode(value);
    if salt == None then Err(InvalidMessage(InvalidSalt)) else Ok(salt.value)
  }

  function ReadIterations(value: bytes): (r: Result<u32, AuthError>)
    ensures r.Ok? ==> 1 <= r.value <= MAX_ITERATIONS
  {
    var n := ParseU32(value);
    if n == None then Err(InvalidMessage(InvalidIterations))
    else if n.value == 0 || n.value > MAX_ITERATIONS then Err(InvalidMessage(IterationsOutOfRange))
    else Ok(n.value)
  }

  /** One attribute of a server-first message: the first of each key counts. */
  function GatherOne(g: Gathered, a: Attribute): Result<Gathered, AuthError> {
    if a.key == [NONCE_KEY] && g.nonce == None then Ok(g.(nonce := Some(a.value)))
    else if a.key == [SALT_KEY] && g.salt == None then
      var salt :- ReadSalt(a.value);
      Ok(g.(salt := Some(salt)))
    else if a.key == [ITERATION_KEY] && g.iterations == None then
      var n :- ReadIterations(a.value);
      Ok(g.(iterations := Some(n)))
    else Ok(g)
  }

  function Gather(g: Gathered, attrs: seq<Attribute>): Result<Gathered, AuthError>
    decreases attrs
  {
    if attrs == [] then Ok(g)
    else
      var next :- GatherOne(g, attrs[0]);
      Gather(next, attrs[1..])
  }

  function ParseServerFirst(msg: bytes): Result<ServerFirst, AuthError> {
    var attrs :- Attributes(msg);
    var g :- Gather(Gathered(None, None, None), attrs);
    if g.nonce == None || g.nonce.value == [] then Err(InvalidMessage(MissingServerNonce))
    else if g.salt == None then Err(InvalidMessage(MissingSalt))
    else if g.iterations == None then Err(InvalidMessage(MissingIterations))
    else Ok(ServerFirst(g.nonce.value, g.salt.value, g.iterations.value))
  }

  // ------------------------------------------------------------ client

  datatype ClientPhase = Init | FirstSent | FinalSent | ClientDone

  datatype Client = Client(
    mechanism: Mechanism,
    username: bytes,
    password: bytes,
    clientNonce: bytes,
    serverFirst: Option<ServerFirst>,
    saltedPassword: Option<bytes>,
    authMessage: bytes,
    phase: ClientPhase)

  function NewClient(k: Crypto, m: Mechanism, username: bytes, password: bytes, nonce: bytes): Client {
    Client(m, username, EffectivePassword(k, m, username, password), nonce, None, None, [], Init)
  }

  /** `n=<escaped username>,r=<nonce>`. */
  function ClientFirstBare(username: bytes, nonce: bytes): bytes {
    Letter(USERNAME_KEY, Escape(username)) + ([COMMA] + Letter(NONCE_KEY, nonce))
  }

  /** `c=biws,r=<full nonce>`. */
  function WithoutProof(nonce: bytes): bytes {
    Letter(CHANNEL_BINDING_KEY, NO_CHANNEL_BINDING) + ([COMMA] + Letter(NONCE_KEY, nonce))
  }

  function ClientFirst(c: Client): Step<Client> {
    if c.phase != Init then Step(c, Err(OutOfOrder))
    else
      var bare := ClientFirstBare(c.username, c.clientNonce);
      Step(c.(authMessage := bare, phase := FirstSent), Ok(GS2_HEADER + bare))
  }

  function ReceiveServerFirst(k: Crypto, c: Client, msg: bytes): Step<Client> {
    if c.phase != FirstSent || c.serverFirst.Some? then Step(c, Err(OutOfOrder))
    else
      var parsed := ParseServerFirst(msg);
      if parsed.Err? then Step(c, Err(parsed.error))
      else if !(c.clientNonce <= parsed.value.nonce) then Step(c, Err(NonceMismatch))
      else
        var salted := k.pbkdf2(c.mechanism, c.password, parsed.value.salt, parsed.value.iterations);
        Step(c.(authMessage := c.authMessage + ([COMMA] + (msg + [COMMA])),
                saltedPassword := Some(salted),
                serverFirst := Some(parsed.value)),
             Ok([]))
  }

  function ClientFinal(k: Crypto, c: Client): Step<Client> {
    if c.phase != FirstSent || c.serverFirst == None || c.saltedPassword == None then Step(c, Err(OutOfOrder))
    else
      var clientKey := k.hmac(c.mechanism, c.saltedPassword.value, CLIENT_KEY_LABEL);
      var storedKey := k.hash(c.mechanism, clientKey);
      var withoutProof := WithoutProof(c.serverFirst.value.nonce);
      var authMessage := c.authMessage + withoutProof;
      var proof := Xor(clientKey, k.hmac(c.mechanism, storedKey, authMessage));
      Step(c.(authMessage := authMessage, phase := FinalSent),
           Ok(withoutProof + ([COMMA] + Letter(PROOF_KEY, Encode(proof)))))
  }

  function ReceiveServerFinal(k: Crypto, c: Client, msg: bytes): Step<Client> {
    if c.phase != FinalSent then Step(c, Err(OutOfOrder))
    else
      var checked := CheckServerFinal(k, c, msg);
      if checked.Err? then Step(c, Err(checked.error)) else Step(c.(phase := ClientDone), Ok([]))
  }

  function CheckServerFinal(k: Crypto, c: Client, msg: bytes): Result<(), AuthError> {
    var attrs :- Attributes(msg);
    if |attrs| != 1 then Err(InvalidMessage(MalformedServerFinal))
    else if attrs[0].key == [ERROR_KEY] then Err(Failure(attrs[0].value))
    else if attrs[0].key == [VERIFIER_KEY] then
      var received := Decode(attrs[0].value);
      if received == None then Err(InvalidMessage(InvalidServerSignature))
      else if c.saltedPassword == None then Err(OutOfOrder)
      else
        var serverKey := k.hmac(c.mechanism, c.saltedPassword.value, SERVER_KEY_LABEL);
        if k.hmac(c.mechanism, serverKey, c.authMessage) == received.value then Ok(()) else Err(ServerSignatureMismatch)
    else Err(InvalidMessage(UnexpectedServerFinal))
  }

  // ------------------------------------------------------------ server

  datatype ServerPhase = ExpectClientFirst | ExpectClientFinal | ServerDone

  datatype Server = Server(
    mechanism: Mechanism,
    serverNonce: bytes,
    clientFirstBare: bytes,
    serverFirstMessage: bytes,
    phase: ServerPhase,
    username: bytes,
    clientNonce: bytes,
    credentials: Option<Credentials>)

  function NewServer(m: Mechanism, nonce: bytes): Server {
    Server(m, nonce, [], [], ExpectClientFirst, [], [], None)
  }

  /** `r=<full nonce>,s=<salt>,i=<iterations>`. */
  function ServerFirstMessage(nonce: bytes, credentials: Credentials): bytes {
    Letter(NONCE_KEY, nonce) + ([COMMA]
    + (Letter(SALT_KEY, Encode(credentials.salt)) + ([COMMA]
    + Letter(ITERATION_KEY, Decimal(credentials.iterations)))))
  }

  /** The client-first message without its GS2 header. */
  function StripGs2(msg: bytes): Result<bytes, AuthError> {
    if GS2_HEADER <= msg then Ok(msg[|GS2_HEADER|..])
    else if GS2_UNSUPPORTED <= msg || GS2_BINDING <= msg then Err(InvalidMessage(ChannelBindingUnsupported))
    else Err(InvalidMessage(InvalidGs2Header))
  }

  /** The client nonce of a client-first message: `n=` first, `r=` second. */
  function ClientNonce(bare: bytes): Result<bytes, AuthError> {
    var attrs :- Attributes(bare);
    if exists i :: 0 <= i < |attrs| && attrs[i].key == [EXTENSION_KEY] then Err(InvalidMessage(MandatoryExtension))
    else if attrs[0].key != [USERNAME_KEY] then Err(InvalidMessage(ExpectedUsername))
    else if |attrs| < 2 || attrs[1].key != [NONCE_KEY] then Err(InvalidMessage(ExpectedNonce))
    else if attrs[1].value == [] then Err(InvalidMessage(MissingClientNonce))
    else Ok(attrs[1].value)
  }

  function HandleClientFirst(s: Server, msg: bytes, username: bytes, credentials: Credentials): Step<Server> {
    if s.phase != ExpectClientFirst then Step(s, Err(OutOfOrder))
    else
      var bare := StripGs2(msg);
      if bare.Err? then Step(s, Err(bare.error))
      else
        var nonce := ClientNonce(bare.value);
        if nonce.Err? then Step(s, Err(nonce.error))
        else
          var reply := ServerFirstMessage(nonce.value + s.serverNonce, credentials);
          Step(s.(clientFirstBare := bare.value,
                  clientNonce := nonce.value,
                  username := username,
                  credentials := Some(credentials),
                  serverFirstMessage := reply,
                  phase := ExpectClientFinal),
               Ok(reply))
  }

  datatype FinalAttributes = FinalAttributes(channelBinding: Option<bytes>, nonce: Option<bytes>, proof: Option<bytes>)

  function CollectOne(f: FinalAttributes, a: Attribute): Result<FinalAttributes, AuthError> {
    if a.key == [CHANNEL_BINDING_KEY] && f.channelBinding == None then Ok(f.(channelBinding := Some(a.value)))
    else if a.key == [NONCE_KEY] && f.nonce == None then Ok(f.(nonce := Some(a.value)))
    else if a.key == [PROOF_KEY] && f.proof == None then Ok(f.(proof := Some(a.value)))
    else Err(InvalidMessage(UnexpectedAttribute))
  }

  function Collect(f: FinalAttributes, attrs: seq<Attribute>): Result<FinalAttributes, AuthError>
    decreases attrs
  {
    if attrs == [] then Ok(f)
    else
      var next :- CollectOne(f, attrs[0]);
      Collect(next, attrs[1..])
  }

  function FullNonce(s: Server): bytes {
    s.clientNonce + s.serverNonce
  }

  /** The transcript both sides sign. */
  function AuthMessage(s: Server): bytes {
    s.clientFirstBare + ([COMMA] + (s.serverFirstMessage + ([COMMA] + WithoutProof(FullNonce(s)))))
  }

  /** The proof carried by a well-formed client-final message. */
  function ClientProof(s: Server, msg: bytes): Result<bytes, AuthError> {
    var attrs :- Attributes(msg);
    var f :- Collect(FinalAttributes(None, None, None), attrs);
    if f.channelBinding != Some(NO_CHANNEL_BINDING) then Err(InvalidMessage(ExpectedChannelBinding))
    else if f.nonce != Some(FullNonce(s)) then Err(NonceMismatch)
    else if f.proof == None then Err(InvalidMessage(MissingProof))
    else
      var proof := Decode(f.proof.value);
      if proof == None then Err(InvalidMessage(InvalidProof)) else Ok(proof.value)
  }

  /** The proof, unmasked by the client signature, hashes to the stored key. */
  predicate Proves(k: Crypto, m: Mechanism, credentials: Credentials, transcript: bytes, proof: bytes) {
    var signature := k.hmac(m, credentials.storedKey, transcript);
    |proof| == |signature| && k.hash(m, Xor(proof, signature)) == credentials.storedKey
  }

  function CheckClientFinal(k: Crypto, s: Server, credentials: Credentials, msg: bytes): Result<bytes, AuthError> {
    var proof :- ClientProof(s, msg);
    var signature := k.hmac(s.mechanism, credentials.storedKey, AuthMessage(s));
    if |proof| != |signature| then Err(InvalidMessage(WrongProofLength))
    else if k.hash(s.mechanism, Xor(proof, signature)) != credentials.storedKey then Err(ClientProofMismatch)
    else Ok(Letter(VERIFIER_KEY, Encode(k.hmac(s.mechanism, credentials.serverKey, AuthMessage(s)))))
  }

  function HandleClientFinal(k: Crypto, s: Server, msg: bytes): Step<Server> {
    if s.phase != ExpectClientFinal || s.credentials == None then Step(s, Err(OutOfOrder))
    else
      var checked := CheckClientFinal(k, s, s.credentials.value, msg);
      if checked.Err? then Step(s, checked) else Step(s.(phase := ServerDone), checked)
  }
}
