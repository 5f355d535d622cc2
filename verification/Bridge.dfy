/** The SASL bridge: `saslStart` and `saslContinue` commands driving one SCRAM
    server per connection (mongowire/src/api/auth.rs). */
module Bridge {
  import opened Bytes
  import opened Text
  import opened ScalarCodec
  import opened BsonModel
  import opened Decode
  import opened Faults
  import opened OpMsgCodec
  import opened ScramText
  import opened Scram
  import opened Carrier
  import Documents

  datatype Refusal =
    | ExchangeInProgress
    | NoExchange
    | BadMechanismField
    | UnsupportedMechanism(name: bytes)
    | BadPayload
    | MissingPayload
    | PayloadNotUtf8
    | MalformedClientFirst
    | UnknownUser
    | StepFailed(error: AuthError)

  /** A BSON failure, in the command or in the reply, closes the connection;
      everything else is an `AuthenticationFailed` reply. */
  datatype BridgeError =
    | BadDocument(cause: Error)
    | AuthenticationFailed(refusal: Refusal)

  type Store = (Mechanism, bytes) -> Option<Credentials>

  // ------------------------------------------------------------ command fields

  function MechanismOf(name: bytes): Option<Mechanism> {
    if name == Ascii("SCRAM-SHA-1") then Some(Sha1)
    else if name == Ascii("SCRAM-SHA-256") then Some(Sha256)
    else None
  }

  const MECHANISM: Str := Ascii("mechanism")
  const PAYLOAD: Str := Ascii("payload")
  const CONVERSATION_ID: Str := Ascii("conversationId")
  const DONE: Str := Ascii("done")

  function MechanismField(found: Result<Option<RawBson>, Error>): Result<Mechanism, BridgeError> {
    match found
    case Err(e) => Err(BadDocument(e))
    case Ok(Some(RawScalar(String(name)))) =>
      var m := MechanismOf(name);
      if m == None then Err(AuthenticationFailed(UnsupportedMechanism(name))) else Ok(m.value)
    case _ => Err(AuthenticationFailed(BadMechanismField))
  }

  function ReadMechanism(body: bytes): Result<Mechanism, BridgeError> {
    MechanismField(Documents.RawGet(body, 0, MECHANISM))
  }

  function PayloadField(found: Result<Option<RawBson>, Error>): Result<bytes, BridgeError> {
    match found
    case Err(e) => Err(BadDocument(e))
    case Ok(None) => Err(AuthenticationFailed(MissingPayload))
    case Ok(Some(RawScalar(Binary(_, payload)))) => Ok(payload)
    case Ok(Some(RawScalar(String(text)))) => Ok(text)
    case _ => Err(AuthenticationFailed(BadPayload))
  }

  /** The SCRAM message a command carries. */
  function ReadText(body: bytes): (r: Result<bytes, BridgeError>)
    ensures r.Ok? ==> ValidUtf8(r.value)
  {
    var payload :- PayloadField(Documents.RawGet(body, 0, PAYLOAD));
    if ValidUtf8(payload) then Ok(payload) else Err(AuthenticationFailed(PayloadNotUtf8))
  }

  /** 64-bit ids are truncated to their low 32 bits; anything else counts as 1. */
  function IdField(found: Result<Option<RawBson>, Error>): i32 {
    match found
    case Ok(Some(RawScalar(Int32(id)))) => id
    case Ok(Some(RawScalar(Int64(id)))) => I32(LE32(id))
    case _ => 1
  }

  function ConversationId(body: bytes): i32 {
    IdField(Documents.RawGet(body, 0, CONVERSATION_ID))
  }

  const USERNAME_PREFIX: bytes := [110, 61] // n=

  /** The username a client-first message claims. */
  function ClaimedUsername(clientFirst: bytes): Option<bytes> {
    var bare := if GS2_HEADER <= clientFirst then clientFirst[|GS2_HEADER|..] else clientFirst;
    var first := Split(bare)[0];
    if USERNAME_PREFIX <= first then Some(Unescape(first[|USERNAME_PREFIX|..])) else None
  }

  // ------------------------------------------------------------ replies

  const ONE: Bytes8 := [0, 0, 0, 0, 0, 0, 0xF0, 0x3F] // 1.0

  function ReplyFields(id: i32, done: bool, payload: bytes): seq<Field> {
    [Field(CONVERSATION_ID, ScalarValue(Int32(id))),
     Field(DONE, ScalarValue(Bool(done))),
     Field(PAYLOAD, ScalarValue(Binary(Generic, payload))),
     Field(OK, ScalarValue(Double(ONE)))]
  }

  const NO_FLAGS := MsgFlags(false, false, false)

  function SaslReply(id: i32, done: bool, payload: bytes): Result<OpMsg, BridgeError> {
    var fields := ReplyFields(id, done, payload);
    var fault := ValueFault(Document(fields), 0);
    if fault.Some? then Err(BadDocument(fault.value))
    else Ok(OpMsg(NO_FLAGS, Sections(DocumentBytes(fields), []), None))
  }

  // ------------------------------------------------------------ the two commands

  datatype Auth = Auth(scram: Option<(Mechanism, Server)>, authenticated: Option<bytes>)

  datatype Outcome = Outcome(auth: Auth, reply: Result<OpMsg, BridgeError>)

  function Refuse(auth: Auth, refusal: Refusal): Outcome {
    Outcome(auth, Err(AuthenticationFailed(refusal)))
  }

  function SaslStart(auth: Auth, body: bytes, nonce: bytes, lookup: Store): Outcome {
    if auth.scram.Some? then Refuse(auth, ExchangeInProgress)
    else
      var mechanism := ReadMechanism(body);
      if mechanism.Err? then Outcome(auth, Err(mechanism.error))
      else
        var text := ReadText(body);
        if text.Err? then Outcome(auth, Err(text.error))
        else
          var username := ClaimedUsername(text.value);
          if username == None then Refuse(auth, MalformedClientFirst)
          else
            var credentials := lookup(mechanism.value, username.value);
            if credentials == None then Refuse(auth, UnknownUser)
            else
              var server := NewServer(mechanism.value, nonce);
              var step := HandleClientFirst(server, text.value, username.value, credentials.value);
              if step.result.Err? then Refuse(auth, StepFailed(step.result.error))
              else Outcome(auth.(scram := Some((mechanism.value, step.state))), SaslReply(1, false, step.result.value))
  }

  function SaslContinue(k: Crypto, auth: Auth, body: bytes): Outcome {
    var text := ReadText(body);
    if text.Err? then Outcome(auth, Err(text.error))
    else if auth.scram == None then Refuse(auth, NoExchange)
    else
      var step := HandleClientFinal(k, auth.scram.value.1, text.value);
      if step.result.Err? then Refuse(auth.(scram := None), StepFailed(step.result.error))
      else Outcome(Auth(None, Some(step.state.username)), SaslReply(ConversationId(body), true, step.result.value))
  }
}
