/** What SASL commands and replies look like on the wire: field names, values and
    mechanism names in literal text (mongowire/src/api/auth.rs). */
module BridgeWire {
  import opened Bytes
  import opened Text
  import opened ScalarCodec
  import opened BsonModel
  import opened Decode
  import opened Faults
  import opened OpMsgCodec
  import opened Scram
  import opened Bridge
  import opened BridgeTheorems
  import opened BridgeLogin
  import opened Carrier
  import Documents

  // ------------------------------------------------------------ names

  lemma MechanismKey()
    ensures MECHANISM == [109, 101, 99, 104, 97, 110, 105, 115, 109] // mechanism
  {
    hide Ascii, ValidUtf8;
    AsciiIs("mechanism", [109, 101, 99, 104, 97, 110, 105, 115, 109]);
  }

  lemma PayloadKey()
    ensures PAYLOAD == [112, 97, 121, 108, 111, 97, 100] // payload
  {
    hide Ascii, ValidUtf8;
    AsciiIs("payload", [112, 97, 121, 108, 111, 97, 100]);
  }

  lemma ConversationKey()
    ensures CONVERSATION_ID == [99, 111, 110, 118, 101, 114, 115, 97, 116, 105, 111, 110, 73, 100] // conversationId
  {
    hide Ascii, ValidUtf8;
    AsciiIs("conversationId", [99, 111, 110, 118, 101, 114, 115, 97, 116, 105, 111, 110, 73, 100]);
  }

  lemma DoneAndOkKeys()
    ensures DONE == [100, 111, 110, 101] && OK == [111, 107] // done, ok
  {
    hide Ascii, ValidUtf8;
    AsciiIs("done", [100, 111, 110, 101]);
    AsciiIs("ok", [111, 107]);
  }

  /** Two mechanism names are known, and no other. */
  lemma MechanismIff(name: bytes, m: Mechanism)
    ensures MechanismOf(name) == Some(m) <==> name == MechanismName(m)
  {
    hide Ascii, ValidUtf8;
  }

  /** The mechanism is read exactly from a string that names it. */
  lemma MechanismReadIff(body: bytes, m: Mechanism)
    ensures ReadMechanism(body) == Ok(m) <==> Lookup(body, MECHANISM) == Some(String(MechanismName(m)))
  {
    hide Documents.RawGet, Ascii, MechanismOf, ValidUtf8;
    match Lookup(body, MECHANISM) {
      case Some(String(name)) => MechanismIff(name, m);
      case _ =>
    }
  }

  /** The message is read exactly from binary of any subtype or from a string,
      when it is UTF-8. */
  lemma TextReadIff(body: bytes, text: bytes)
    ensures ReadText(body) == Ok(text) <==>
            && ValidUtf8(text)
            && (|| Lookup(body, PAYLOAD) == Some(String(text))
                || exists subtype :: Lookup(body, PAYLOAD) == Some(Binary(subtype, text)))
  {
    hide Documents.RawGet, Ascii, ValidUtf8;
    match Lookup(body, PAYLOAD) {
      case Some(Binary(subtype, payload)) =>
        assert Lookup(body, PAYLOAD) == Some(Binary(subtype, payload));
      case _ =>
    }
  }

  // ------------------------------------------------------------ replies

  /** The id, whether the exchange is done, the server's message as generic
      binary, and 1.0. */
  function ReplyValues(id: i32, done: bool, payload: bytes): seq<Scalar> {
    [Int32(id), Bool(done), Binary(Generic, payload), Double([0, 0, 0, 0, 0, 0, 0xF0, 0x3F])]
  }

  /** A reply with these values under four names in its raw bytes. */
  predicate ReplyReads(msg: OpMsg, id: i32, done: bool, payload: bytes) {
    && HasFields(msg.sections.body, [CONVERSATION_ID, DONE, PAYLOAD, OK], ReplyValues(id, done, payload))
    && msg.flags == MsgFlags(false, false, false) && msg.sections.sequences == [] && msg.checksum == None
  }

  lemma ReplyIsRead(id: i32, done: bool, payload: bytes)
    requires SaslReply(id, done, payload).Ok?
    ensures ReplyReads(SaslReply(id, done, payload).value, id, done, payload)
  {
    hide DocumentBytes, EncodesFields, Ascii, NulFree, Representable, HasFields, ScalarBytes, ValidUtf8;
    KeyFacts();
    ReplyScalars(id, done, payload);
    ValueFaultIff(Document(ReplyFields(id, done, payload)), 0);
    DocumentEncodesIff(ReplyFields(id, done, payload));
    FourAreRead(CONVERSATION_ID, Int32(id), DONE, Bool(done), PAYLOAD, Binary(Generic, payload), OK, Double(ONE));
  }

  /** `saslStart` opens an exchange exactly when none is open, the command names
      a known mechanism and carries text, the text claims a name the store knows,
      and the server takes it. A reply that fits has id 1, is not done, and carries
      the server's first message. */
  lemma StartIff(auth: Auth, body: bytes, nonce: bytes, lookup: Store)
    ensures var o := SaslStart(auth, body, nonce, lookup);
            && (o.auth != auth <==> auth.scram == None && Startable(body, nonce, lookup))
            && (o.auth != auth ==> o.auth.scram.Some? && o.auth.authenticated == auth.authenticated)
            && (auth.scram.Some? ==> o == Refuse(auth, ExchangeInProgress))
            && (o.reply.Ok? <==> o.auth != auth && |o.auth.scram.value.1.serverFirstMessage| + 58 <= 0x7FFF_FFFF)
            && (o.reply.Ok? ==> ReplyReads(o.reply.value, 1, false, o.auth.scram.value.1.serverFirstMessage))
  {
    hide ReadMechanism, ReadText, ClaimedUsername, StripGs2, ClientNonce, ServerFirstMessage, SaslReply, ReplyReads;
    var o := SaslStart(auth, body, nonce, lookup);
    if o.auth != auth {
      ReplyEncodesIff(1, false, o.auth.scram.value.1.serverFirstMessage);
      if o.reply.Ok? {
        ReplyIsRead(1, false, o.auth.scram.value.1.serverFirstMessage);
      }
    }
  }

  predicate Startable(body: bytes, nonce: bytes, lookup: Store) {
    var mechanism, text := ReadMechanism(body), ReadText(body);
    && mechanism.Ok? && text.Ok?
    && ClaimedUsername(text.value).Some?
    && var name := ClaimedUsername(text.value).value;
       && lookup(mechanism.value, name).Some?
       && var server := NewServer(mechanism.value, nonce);
          HandleClientFirst(server, text.value, name, lookup(mechanism.value, name).value).result.Ok?
  }

  /** The reply to a verified `saslContinue` has the command's id, is done, and
      carries the server's signature. */
  lemma ContinueReplies(k: Crypto, auth: Auth, body: bytes)
    ensures var o := SaslContinue(k, auth, body);
            o.reply.Ok? ==>
              && auth.scram.Some? && ReadText(body).Ok?
              && var verifier := HandleClientFinal(k, auth.scram.value.1, ReadText(body).value).result;
                 && verifier.Ok?
                 && ReplyReads(o.reply.value, ConversationId(body), true, verifier.value)
  {
    hide ReadText, HandleClientFinal, SaslReply, ConversationId, ReplyReads, SaslContinue;
    ContinueIs(k, auth, body);
    var o := SaslContinue(k, auth, body);
    if o.reply.Ok? {
      var verifier := HandleClientFinal(k, auth.scram.value.1, ReadText(body).value).result;
      ReplyIsRead(ConversationId(body), true, verifier.value);
    }
  }

  /** A command's conversation id: a 32-bit one as it is, a 64-bit one modulo
      2^32, and 1 in every other case. */
  lemma ConversationIdIs(body: bytes)
    ensures match Lookup(body, CONVERSATION_ID)
            case Some(Int32(id)) => ConversationId(body) == id
            case Some(Int64(id)) => (ConversationId(body) - id) % 0x1_0000_0000 == 0
            case _ => ConversationId(body) == 1
  {
    hide Documents.RawGet, Ascii, IdField, Lookup, ValidUtf8, NulFree;
    IdUnder(body, CONVERSATION_ID);
  }

  lemma IdUnder(body: bytes, key: Str)
    ensures match Lookup(body, key)
            case Some(Int32(id)) => IdField(Documents.RawGet(body, 0, key)) == id
            case Some(Int64(id)) => (IdField(Documents.RawGet(body, 0, key)) - id) % 0x1_0000_0000 == 0
            case _ => IdField(Documents.RawGet(body, 0, key)) == 1
  {
    hide Documents.RawGet, IdField, ScalarIn;
    IdFieldIs(Documents.RawGet(body, 0, key));
  }

  lemma IdFieldIs(found: Result<Option<RawBson>, Error>)
    ensures match ScalarIn(found)
            case Some(Int32(id)) => IdField(found) == id
            case Some(Int64(id)) => (IdField(found) - id) % 0x1_0000_0000 == 0
            case _ => IdField(found) == 1
  {
    hide LE32, U32, I32;
    if ScalarIn(found).Some? && ScalarIn(found).value.Int64? {
      LowWord(ScalarIn(found).value.int64);
    }
  }

  lemma LowWord(v: int)
    ensures (I32(LE32(v)) - v) % 0x1_0000_0000 == 0
  {
    hide LE32, U32;
    LE32RoundTrip(v, []);
    assert LE32(v) + [] == LE32(v);
    SameModulo(I32(LE32(v)), v);
  }

  lemma SameModulo(id: int, v: int)
    requires id == v % 0x1_0000_0000 || id == v % 0x1_0000_0000 - 0x1_0000_0000
    ensures (id - v) % 0x1_0000_0000 == 0
  {
    var q := v / 0x1_0000_0000;
    assert id - v == -q * 0x1_0000_0000 || id - v == (-q - 1) * 0x1_0000_0000;
    Multiple(-q);
    Multiple(-q - 1);
  }

  lemma Multiple(q: int)
    ensures q * 0x1_0000_0000 % 0x1_0000_0000 == 0
  {
  }
}
