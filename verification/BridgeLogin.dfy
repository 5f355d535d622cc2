/** The honest login through the bridge: each message is wrapped in a BSON
    document, looked up in its raw bytes, and answered the same way
    (mongowire/src/api/auth.rs). */
module BridgeLogin {
  import opened Bytes
  import opened Text
  import opened ScalarCodec
  import opened BsonModel
  import opened Faults
  import opened OpMsgCodec
  import opened ScramText
  import opened Scram
  import opened ScramRuns
  import opened Bridge
  import opened Carrier
  import Base64
  import Documents

  // ------------------------------------------------------------ replies

  /** A reply is refused only when its document would pass 2^31 - 1 bytes. */
  lemma ReplyEncodesIff(id: i32, done: bool, payload: bytes)
    ensures SaslReply(id, done, payload).Ok? <==> |payload| + 58 <= I32_MAX
  {
    hide CleanFields, FieldsBytes, Framed, EncodesFields;
    var fields := ReplyFields(id, done, payload);
    ReplyFieldsFacts(id, done, payload);
    FaithfulFieldsAreClean(fields);
    DocumentEncodesIff(fields);
    ValueFaultIff(Document(fields), 0);
  }

  lemma KeyFacts()
    ensures NulFree(CONVERSATION_ID) && NulFree(DONE) && NulFree(PAYLOAD) && NulFree(OK)
    ensures |CONVERSATION_ID| == 14 && |DONE| == 4 && |PAYLOAD| == 7 && |OK| == 2
  {
    hide Ascii, ValidUtf8;
  }

  lemma ReplyScalars(id: i32, done: bool, payload: bytes)
    ensures Representable(Int32(id)) && Representable(Bool(done))
    ensures Representable(Binary(Generic, payload)) && Representable(Double(ONE))
    ensures |ScalarBytes(Int32(id))| == 4 && |ScalarBytes(Bool(done))| == 1
    ensures |ScalarBytes(Binary(Generic, payload))| == |payload| + 5 && |ScalarBytes(Double(ONE))| == 8
  {
  }

  lemma ReplyFieldsFacts(id: i32, done: bool, payload: bytes)
    ensures var fs := ReplyFields(id, done, payload);
            FaithfulFields(fs) && FieldsDepth(fs) == 0 && |FieldsBytes(fs)| == |payload| + 53
  {
    hide FaithfulFields, FieldsDepth, FieldsBytes, NulFree, Ascii, Representable, ScalarBytes, ValidUtf8;
    KeyFacts();
    ReplyScalars(id, done, payload);
    FourFields(CONVERSATION_ID, Int32(id), DONE, Bool(done), PAYLOAD, Binary(Generic, payload), OK, Double(ONE));
  }

  /** The client finds the server's message under `payload` in the reply. */
  lemma ReplyCarries(id: i32, done: bool, payload: bytes)
    requires SaslReply(id, done, payload).Ok?
    ensures PayloadField(Documents.RawGet(SaslReply(id, done, payload).value.sections.body, 0, PAYLOAD)) == Ok(payload)
  {
    hide FieldsBytes, Framed, FaithfulFields, Documents.RawGet, EncodesFields, ReplyFields, FieldsDepth, Get;
    ReplyFieldsFacts(id, done, payload);
    PayloadInReply(id, done, payload);
    Carried(ReplyFields(id, done, payload), PAYLOAD, Binary(Generic, payload));
  }

  lemma PayloadInReply(id: i32, done: bool, payload: bytes)
    ensures Get(ReplyFields(id, done, payload), PAYLOAD) == Some(ScalarValue(Binary(Generic, payload)))
  {
    var fs := ReplyFields(id, done, payload);
    hide Ascii, ValidUtf8;
    assert Get(fs, PAYLOAD) == Get(fs[1..], PAYLOAD);
    assert fs[1..][1..][0] == fs[2];
    assert Get(fs[1..], PAYLOAD) == Get(fs[1..][1..], PAYLOAD);
  }

  // ------------------------------------------------------------ messages are text

  /** A client-first message claims its sender's own username. */
  lemma ClaimedOf(username: bytes, nonce: bytes)
    ensures ClaimedUsername(GS2_HEADER + ClientFirstBare(username, nonce)) == Some(username)
  {
    hide Split, Escape, Unescape;
    var bare := ClientFirstBare(username, nonce);
    assert (GS2_HEADER + bare)[3..] == bare;
    EscapeIsCommaFree(username);
    var first := Letter(USERNAME_KEY, Escape(username));
    LetterCommaFree(USERNAME_KEY, Escape(username));
    SplitFirst(first, Letter(NONCE_KEY, nonce));
    assert Split(bare)[0] == first && first[2..] == Escape(username);
    UnescapeOfEscape(username);
  }

  lemma {:induction false} TokensUtf8(name: bytes)
    requires ValidUtf8(name)
    ensures ValidUtf8(Tokens(name))
  {
    if name != [] {
      var n := CharLen(name);
      TokensUtf8(name[n..]);
      TokensSplit(name, n);
      if n == 1 {
        assert name[..1] == [name[0]];
        assert Tokens(name[..1]) == Token(name[0]) + Tokens([]);
        AsciiIsUtf8(Tokens(name[..1]));
      } else {
        TokensOfNonAscii(name[..n]);
        OneChar(name);
      }
      Utf8Append(Tokens(name[..n]), Tokens(name[n..]));
    }
  }

  lemma OneChar(name: bytes)
    requires CharLen(name) > 0
    ensures ValidUtf8(name[..CharLen(name)])
  {
    var n := CharLen(name);
    assert CharLen(name[..n]) == n && name[..n][n..] == [];
  }

  lemma {:induction false} TokensSplit(name: bytes, n: nat)
    requires n <= |name|
    ensures Tokens(name) == Tokens(name[..n]) + Tokens(name[n..])
  {
    hide Token, Tokens;
    if n == 0 {
      NoTokens();
      assert name[..0] == [] && name[0..] == name;
      assert Tokens([]) + Tokens(name) == Tokens(name);
    } else {
      TokensSplit(name[1..], n - 1);
      assert name[..n][1..] == name[1..][..n - 1] && name[1..][n - 1..] == name[n..];
      TokensStep(name[..n]);
      TokensStep(name);
      var a, b, c := Token(name[0]), Tokens(name[1..][..n - 1]), Tokens(name[n..]);
      assert a + (b + c) == (a + b) + c;
    }
  }

  lemma NoTokens()
    ensures Tokens([]) == []
  {
  }

  lemma TokensStep(name: bytes)
    requires name != []
    ensures Tokens(name) == Token(name[0]) + Tokens(name[1..])
  {
  }

  lemma {:induction false} TokensOfNonAscii(b: bytes)
    requires forall i :: 0 <= i < |b| ==> b[i] > 0x7F
    ensures Tokens(b) == b
  {
    if b != [] {
      TokensOfNonAscii(b[1..]);
      assert b == [b[0]] + b[1..];
    }
  }

  lemma LetterUtf8(key: byte, value: bytes)
    requires key <= 0x7F && ValidUtf8(value)
    ensures ValidUtf8(Letter(key, value))
  {
    assert Letter(key, value) == [key, EQUALS] + value;
    AsciiIsUtf8([key, EQUALS]);
    Utf8Append([key, EQUALS], value);
  }

  lemma CommaUtf8(a: bytes, b: bytes)
    requires ValidUtf8(a) && ValidUtf8(b)
    ensures ValidUtf8(a + ([Base64.COMMA] + b))
  {
    AsciiIsUtf8([Base64.COMMA]);
    Utf8Append([Base64.COMMA], b);
    Utf8Append(a, [Base64.COMMA] + b);
  }

  lemma ClientFirstUtf8(username: Str, nonce: Str)
    ensures ValidUtf8(GS2_HEADER + ClientFirstBare(username, nonce))
  {
    hide ValidUtf8, Escape, Letter;
    EscapeTokens(username);
    TokensUtf8(username);
    LetterUtf8(USERNAME_KEY, Escape(username));
    LetterUtf8(NONCE_KEY, nonce);
    CommaUtf8(Letter(USERNAME_KEY, Escape(username)), Letter(NONCE_KEY, nonce));
    AsciiIsUtf8(GS2_HEADER);
    Utf8Append(GS2_HEADER, ClientFirstBare(username, nonce));
  }

  lemma ClientFinalUtf8(nonce: Str, proof: bytes)
    ensures ValidUtf8(WithoutProof(nonce) + ([Base64.COMMA] + Letter(PROOF_KEY, Base64.Encode(proof))))
  {
    hide ValidUtf8, Letter, Base64.Encode;
    Base64.EncodeIsPlain(proof);
    assert forall i :: 0 <= i < |Base64.Encode(proof)| ==> Base64.Encode(proof)[i] in Base64.Encode(proof);
    AsciiIsUtf8(Base64.Encode(proof));
    AsciiIsUtf8(NO_CHANNEL_BINDING);
    LetterUtf8(CHANNEL_BINDING_KEY, NO_CHANNEL_BINDING);
    LetterUtf8(NONCE_KEY, nonce);
    LetterUtf8(PROOF_KEY, Base64.Encode(proof));
    CommaUtf8(Letter(CHANNEL_BINDING_KEY, NO_CHANNEL_BINDING), Letter(NONCE_KEY, nonce));
    CommaUtf8(WithoutProof(nonce), Letter(PROOF_KEY, Base64.Encode(proof)));
  }

  /** The text of a command that carries `text` as its payload. */
  lemma TextOf(body: bytes, text: bytes)
    requires PayloadField(Documents.RawGet(body, 0, PAYLOAD)) == Ok(text) && ValidUtf8(text)
    ensures ReadText(body) == Ok(text)
  {
    hide Documents.RawGet, ValidUtf8, PayloadField;
  }

  /** The server an honest `saslStart` leaves in flight. */
  lemma StartOpens(m: Mechanism, c: Client, body: bytes, nonce: bytes, lookup: Store, credentials: Credentials)
    requires c.mechanism == m && c.phase == Init && ValidUtf8(c.username)
    requires c.clientNonce != [] && CommaFree(c.clientNonce) && ValidUtf8(c.clientNonce)
    requires ReadMechanism(body) == Ok(m)
    requires PayloadField(Documents.RawGet(body, 0, PAYLOAD)) == Ok(ClientFirst(c).result.value)
    requires lookup(m, c.username) == Some(credentials)
    ensures var s := ServerAfterFirst(m, c, nonce, credentials);
            SaslStart(Auth(None, None), body, nonce, lookup) ==
            Outcome(Auth(Some((m, s)), None), SaslReply(1, false, s.serverFirstMessage))
  {
    hide ReadMechanism, ReadText, ClaimedUsername, HandleClientFirst, SaslReply, PayloadField, Documents.RawGet,
      ClientFirstBare, ServerFirstMessage;
    ClientFirstUtf8(c.username, c.clientNonce);
    TextOf(body, ClientFirst(c).result.value);
    ClaimedOf(c.username, c.clientNonce);
    FirstRound(c, nonce, credentials);
  }

  lemma FinalText(k: Crypto, c: Client)
    requires c.serverFirst.Some? && ValidUtf8(c.serverFirst.value.nonce)
    requires ClientFinal(k, c).result.Ok?
    ensures ValidUtf8(ClientFinal(k, c).result.value)
  {
    hide ValidUtf8, WithoutProof, Xor, Base64.Encode, Letter;
    var authMessage := c.authMessage + WithoutProof(c.serverFirst.value.nonce);
    var clientKey := k.hmac(c.mechanism, c.saltedPassword.value, CLIENT_KEY_LABEL);
    var signature := k.hmac(c.mechanism, k.hash(c.mechanism, clientKey), authMessage);
    ClientFinalUtf8(c.serverFirst.value.nonce, Xor(clientKey, signature));
  }

  // ------------------------------------------------------------ the exchange

  datatype LoginFault = ClientFault(cause: AuthError) | ServerFault(error: BridgeError)

  /** The message a reply carries, as the client finds it. */
  function ReplyText(reply: Result<OpMsg, BridgeError>): Result<bytes, BridgeError> {
    if reply.Err? then Err(reply.error)
    else PayloadField(Documents.RawGet(reply.value.sections.body, 0, PAYLOAD))
  }

  /** How a message becomes a command document. */
  type Wrapping = bytes -> bytes

  /** A whole login on a new connection: every message of either side reaches
      the other only as the payload of a document. */
  function Login(k: Crypto, c: Client, nonce: bytes, lookup: Store, start: Wrapping, more: Wrapping):
    Result<(Client, Auth), LoginFault>
  {
    var a := ClientFirst(c);
    if a.result.Err? then Err(ClientFault(a.result.error))
    else
      var b := SaslStart(Auth(None, None), start(a.result.value), nonce, lookup);
      var t1 := ReplyText(b.reply);
      if t1.Err? then Err(ServerFault(t1.error))
      else
        var d := ReceiveServerFirst(k, a.state, t1.value);
        if d.result.Err? then Err(ClientFault(d.result.error))
        else Finish(k, d.state, b.auth, more)
  }

  /** The second half, from the client that has read server-first. */
  function Finish(k: Crypto, c: Client, auth: Auth, more: Wrapping): Result<(Client, Auth), LoginFault> {
    var e := ClientFinal(k, c);
    if e.result.Err? then Err(ClientFault(e.result.error))
    else
      var f := SaslContinue(k, auth, more(e.result.value));
      var t2 := ReplyText(f.reply);
      if t2.Err? then Err(ServerFault(t2.error))
      else
        var g := ReceiveServerFinal(k, e.state, t2.value);
        if g.result.Err? then Err(ClientFault(g.result.error)) else Ok((g.state, f.auth))
  }

  /** The document `wrap` makes of `text` carries it. */
  predicate Carries(wrap: Wrapping, text: bytes) {
    PayloadField(Documents.RawGet(wrap(text), 0, PAYLOAD)) == Ok(text)
  }

  /** The client-final message of an honest client. */
  function HonestFinal(k: Crypto, c: Client, s: Server): Result<bytes, AuthError> {
    ClientFinal(k, ReceiveServerFirst(k, ClientFirst(c).state, s.serverFirstMessage).state).result
  }

  /** The server's first message reaches the client exactly when its reply
      encodes. */
  lemma ReplyTextOf(id: i32, done: bool, payload: bytes)
    ensures var t := ReplyText(SaslReply(id, done, payload));
            if |payload| + 58 <= I32_MAX then t == Ok(payload) else t.Err?
  {
    hide SaslReply, PayloadField, Documents.RawGet;
    ReplyEncodesIff(id, done, payload);
    if SaslReply(id, done, payload).Ok? {
      ReplyCarries(id, done, payload);
    }
  }

  lemma VerifierFits(k: Crypto, m: Mechanism, key: bytes, transcript: bytes)
    requires FixedLength(k)
    ensures |Letter(VERIFIER_KEY, Base64.Encode(k.hmac(m, key, transcript)))| + 58 <= I32_MAX
  {
    hide Base64.Encode;
    Base64.EncodeLength(k.hmac(m, key, transcript));
  }

  /** The second half of an honest login. */
  lemma HonestFinish(k: Crypto, c: Client, s: Server, credentials: Credentials, salted: bytes, name: bytes,
                     more: Wrapping)
    requires FixedLength(k)
    requires c.phase == FirstSent && c.serverFirst.Some? && c.saltedPassword == Some(salted)
    requires c.serverFirst.value.nonce == FullNonce(s) && CommaFree(FullNonce(s)) && ValidUtf8(FullNonce(s))
    requires s.phase == ExpectClientFinal && s.credentials == Some(credentials) && s.mechanism == c.mechanism
    requires c.authMessage + WithoutProof(FullNonce(s)) == AuthMessage(s) && s.username == name
    requires credentials.storedKey == k.hash(s.mechanism, k.hmac(s.mechanism, salted, CLIENT_KEY_LABEL))
    requires credentials.serverKey == k.hmac(s.mechanism, salted, SERVER_KEY_LABEL)
    requires ClientFinal(k, c).result.Ok? && Carries(more, ClientFinal(k, c).result.value)
    ensures Finish(k, c, Auth(Some((s.mechanism, s)), None), more) ==
            Ok((c.(authMessage := AuthMessage(s), phase := ClientDone), Auth(None, Some(name))))
  {
    hide ReadText, SaslReply, PayloadField, Documents.RawGet, AuthMessage, WithoutProof, ClientFinal,
      ReceiveServerFinal, ReplyText, ConversationId, ClientProof, Xor, Base64.Encode;
    LastRounds(k, c, s, credentials, salted);
    var text := ClientFinal(k, c).result.value;
    FinalText(k, c);
    TextOf(more(text), text);
    VerifierFits(k, s.mechanism, credentials.serverKey, AuthMessage(s));
    ReplyTextOf(ConversationId(more(text)), true, HandleClientFinal(k, s, text).result.value);
  }

  /** A login with the right password completes exactly when the reply that
      carries server-first fits a document; then the client is done, both sides
      signed the same transcript, and the bridge has authenticated the very name
      the client gave. It holds whatever documents carry the two commands. */
  lemma HonestLogin(k: Crypto, m: Mechanism, username: Str, password: bytes, salt: bytes, iterations: u32,
                    clientNonce: Str, serverNonce: Str, lookup: Store, start: Wrapping, more: Wrapping)
    requires FixedLength(k)
    requires 1 <= iterations <= MAX_ITERATIONS
    requires clientNonce != [] && CommaFree(clientNonce) && CommaFree(serverNonce)
    requires lookup(m, username) ==
             Some(Derive(k, m, EffectivePassword(k, m, username, password), salt, iterations))
    requires var c := NewClient(k, m, username, password, clientNonce);
             var s := ServerAfterFirst(m, c, serverNonce, lookup(m, username).value);
             var text := ClientFirst(c).result.value;
             && ReadMechanism(start(text)) == Ok(m) && Carries(start, text)
             && (HonestFinal(k, c, s).Ok? ==> Carries(more, HonestFinal(k, c, s).value))
    ensures var c := NewClient(k, m, username, password, clientNonce);
            var s := ServerAfterFirst(m, c, serverNonce, lookup(m, username).value);
            var done := Login(k, c, serverNonce, lookup, start, more);
            && (done.Ok? <==> |s.serverFirstMessage| + 58 <= I32_MAX)
            && (done.Ok? ==> done.value.0.phase == ClientDone && done.value.0.authMessage == AuthMessage(s)
                             && done.value.1 == Auth(None, Some(username)))
  {
    hide ReadMechanism, SaslReply, PayloadField, Documents.RawGet, ClientFirstBare, ServerFirstMessage,
      ReceiveServerFirst, ClientFinal, AuthMessage, EffectivePassword, WithoutProof, SaslStart, Finish,
      ReplyText, Carries;
    var c := NewClient(k, m, username, password, clientNonce);
    var credentials := lookup(m, username).value;
    var s := ServerAfterFirst(m, c, serverNonce, credentials);
    assert Carries(start, ClientFirst(c).result.value);
    CarriesMeans(start, ClientFirst(c).result.value);
    StartOpens(m, c, start(ClientFirst(c).result.value), serverNonce, lookup, credentials);
    ReplyTextOf(1, false, s.serverFirstMessage);
    if |s.serverFirstMessage| + 58 <= I32_MAX {
      SecondRound(k, c, serverNonce, credentials);
      TranscriptShape(m, c, serverNonce, credentials);
      Utf8Append(clientNonce, serverNonce);
      var c2 := ReceiveServerFirst(k, ClientFirst(c).state, s.serverFirstMessage).state;
      FinalIsOk(k, c2);
      HonestFinish(k, c2, s, credentials, c2.saltedPassword.value, username, more);
    }
  }

  lemma CarriesMeans(wrap: Wrapping, text: bytes)
    requires Carries(wrap, text)
    ensures PayloadField(Documents.RawGet(wrap(text), 0, PAYLOAD)) == Ok(text)
  {
    hide PayloadField, Documents.RawGet;
  }

  lemma FinalIsOk(k: Crypto, c: Client)
    requires c.phase == FirstSent && c.serverFirst.Some? && c.saltedPassword.Some?
    ensures ClientFinal(k, c).result.Ok?
  {
    hide Xor, Base64.Encode, WithoutProof, Letter;
  }

  // ------------------------------------------------------------ the documents drivers send

  const SASL_START: Str := Ascii("saslStart")
  const SASL_CONTINUE: Str := Ascii("saslContinue")

  function MechanismName(m: Mechanism): Str {
    if m == Sha1 then Ascii("SCRAM-SHA-1") else Ascii("SCRAM-SHA-256")
  }

  /** `{saslStart: 1, mechanism, payload, $db}`. */
  function StartFields(m: Mechanism, text: bytes): seq<Field> {
    [Field(SASL_START, ScalarValue(Int32(1))), Field(MECHANISM, ScalarValue(String(MechanismName(m)))),
     Field(PAYLOAD, ScalarValue(Binary(Generic, text))), Field(DB, ScalarValue(String(ADMIN)))]
  }

  /** `{saslContinue: 1, conversationId, payload, $db}`. */
  function ContinueFields(id: i32, text: bytes): seq<Field> {
    [Field(SASL_CONTINUE, ScalarValue(Int32(1))), Field(CONVERSATION_ID, ScalarValue(Int32(id))),
     Field(PAYLOAD, ScalarValue(Binary(Generic, text))), Field(DB, ScalarValue(String(ADMIN)))]
  }

  lemma CommandKeyFacts()
    ensures NulFree(SASL_START) && NulFree(SASL_CONTINUE) && NulFree(MECHANISM) && NulFree(DB)
    ensures |SASL_CONTINUE| == 12 && |MECHANISM| == 9 && |SASL_START| == 9
  {
    hide Ascii, ValidUtf8;
  }

  lemma FirstLettersDiffer()
    ensures SASL_START != MECHANISM
  {
    assert SASL_START[0] == 115 && MECHANISM[0] == 109;
  }

  lemma MechanismOfName(m: Mechanism)
    ensures MechanismOf(MechanismName(m)) == Some(m)
  {
    hide Ascii, ValidUtf8;
  }

  lemma GetSecondThird(a: Field, b: Field, c: Field, d: Field)
    ensures a.name != b.name ==> Get([a, b, c, d], b.name) == Some(b.value)
    ensures a.name != c.name && b.name != c.name ==> Get([a, b, c, d], c.name) == Some(c.value)
  {
    assert [a, b, c, d][1..] == [b, c, d] && [b, c, d][1..] == [c, d];
    assert Get([b, c, d], c.name) == if b.name == c.name then Some(b.value) else Get([c, d], c.name);
  }

  lemma StartCarries(m: Mechanism, text: bytes)
    requires |DocumentBytes(StartFields(m, text))| <= U32_MAX
    ensures var body := DocumentBytes(StartFields(m, text));
            ReadMechanism(body) == Ok(m) && PayloadField(Documents.RawGet(body, 0, PAYLOAD)) == Ok(text)
  {
    hide FaithfulFields, FieldsDepth, FieldsBytes, Framed, NulFree, Ascii, ScalarBytes, Documents.RawGet,
      MechanismName, MechanismOf, Get, Representable, ValidUtf8;
    var fs := StartFields(m, text);
    KeyFacts();
    CommandKeyFacts();
    FirstLettersDiffer();
    Plain(text);
    PlainString(MechanismName(m));
    PlainString(ADMIN);
    FourFields(SASL_START, Int32(1), MECHANISM, String(MechanismName(m)),
               PAYLOAD, Binary(Generic, text), DB, String(ADMIN));
    GetSecondThird(fs[0], fs[1], fs[2], fs[3]);
    Carried(fs, MECHANISM, String(MechanismName(m)));
    Carried(fs, PAYLOAD, Binary(Generic, text));
    MechanismOfName(m);
  }

  lemma ContinueCarries(id: i32, text: bytes)
    requires |DocumentBytes(ContinueFields(id, text))| <= U32_MAX
    ensures var body := DocumentBytes(ContinueFields(id, text));
            ConversationId(body) == id && PayloadField(Documents.RawGet(body, 0, PAYLOAD)) == Ok(text)
  {
    hide FaithfulFields, FieldsDepth, FieldsBytes, Framed, NulFree, Ascii, ScalarBytes, Documents.RawGet, Get,
      Representable, ValidUtf8;
    var fs := ContinueFields(id, text);
    KeyFacts();
    CommandKeyFacts();
    Plain(text);
    PlainInt(id);
    PlainString(ADMIN);
    FourFields(SASL_CONTINUE, Int32(1), CONVERSATION_ID, Int32(id), PAYLOAD, Binary(Generic, text), DB, String(ADMIN));
    GetSecondThird(fs[0], fs[1], fs[2], fs[3]);
    Carried(fs, CONVERSATION_ID, Int32(id));
    Carried(fs, PAYLOAD, Binary(Generic, text));
  }

  lemma Plain(payload: bytes)
    ensures Representable(Binary(Generic, payload)) && Representable(Int32(1))
  {
  }

  lemma PlainString(text: Str)
    ensures Representable(String(text))
  {
  }

  lemma PlainInt(v: i32)
    ensures Representable(Int32(v))
  {
  }

  function StartDocument(m: Mechanism): Wrapping {
    text => DocumentBytes(StartFields(m, text))
  }

  function ContinueDocument(id: i32): Wrapping {
    text => DocumentBytes(ContinueFields(id, text))
  }

  /** The honest login with the very documents drivers send: all four messages
      go through BSON encoding and raw lookup on their way. */
  lemma HonestLoginOverBson(k: Crypto, m: Mechanism, username: Str, password: bytes, salt: bytes, iterations: u32,
                            clientNonce: Str, serverNonce: Str, lookup: Store, id: i32)
    requires FixedLength(k)
    requires 1 <= iterations <= MAX_ITERATIONS
    requires clientNonce != [] && CommaFree(clientNonce) && CommaFree(serverNonce)
    requires lookup(m, username) ==
             Some(Derive(k, m, EffectivePassword(k, m, username, password), salt, iterations))
    requires var c := NewClient(k, m, username, password, clientNonce);
             var s := ServerAfterFirst(m, c, serverNonce, lookup(m, username).value);
             && |DocumentBytes(StartFields(m, ClientFirst(c).result.value))| <= U32_MAX
             && (HonestFinal(k, c, s).Ok? ==>
                   |DocumentBytes(ContinueFields(id, HonestFinal(k, c, s).value))| <= U32_MAX)
    ensures var c := NewClient(k, m, username, password, clientNonce);
            var s := ServerAfterFirst(m, c, serverNonce, lookup(m, username).value);
            var done := Login(k, c, serverNonce, lookup, StartDocument(m), ContinueDocument(id));
            && (done.Ok? <==> |s.serverFirstMessage| + 58 <= I32_MAX)
            && (done.Ok? ==> done.value.0.phase == ClientDone && done.value.0.authMessage == AuthMessage(s)
                             && done.value.1 == Auth(None, Some(username)))
  {
    hide ReadMechanism, PayloadField, Documents.RawGet, HonestFinal, StartFields, ContinueFields, DocumentBytes,
      EffectivePassword, Derive, ServerAfterFirst, Login, AuthMessage;
    var c := NewClient(k, m, username, password, clientNonce);
    var s := ServerAfterFirst(m, c, serverNonce, lookup(m, username).value);
    StartCarries(m, ClientFirst(c).result.value);
    if HonestFinal(k, c, s).Ok? {
      ContinueCarries(id, HonestFinal(k, c, s).value);
    }
    HonestLogin(k, m, username, password, salt, iterations, clientNonce, serverNonce, lookup,
                StartDocument(m), ContinueDocument(id));
  }
}
