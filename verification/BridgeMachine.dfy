/** `AuthState` as the bridge updates it: a server is created by `saslStart`,
    taken out by `saslContinue`, and dropped on any failure
    (mongowire/src/api/auth.rs). */
module BridgeMachine {
  import opened Bytes
  import opened Text
  import opened Faults
  import opened BsonModel
  import opened OpMsgCodec
  import opened Scram
  import opened ScramMachines
  import opened Bridge
  import Documents
  import Decoder
  import Encode

  method BuildReply(id: i32, done: bool, payload: bytes) returns (r: Result<OpMsg, BridgeError>)
    ensures r == SaslReply(id, done, payload)
  {
    hide EncodesValue, DocumentBytes, ReplyFields, ValidDocument, ValueFault;
    Faults.ValueFaultIff(Document(ReplyFields(id, done, payload)), 0);
    var raw := Encode.EncodeToRaw(ReplyFields(id, done, payload));
    if raw.Err? {
      return Err(BadDocument(raw.error));
    }
    var msg := NewOpMsg(NO_FLAGS, raw.value, []);
    return Ok(msg.value);
  }

  method FindText(body: bytes) returns (r: Result<bytes, BridgeError>)
    ensures r == ReadText(body)
  {
    hide Documents.RawGet, PayloadField, ValidUtf8;
    var found := Decoder.FindRaw(body, PAYLOAD);
    var payload := PayloadField(found);
    if payload.Err? {
      return Err(payload.error);
    }
    if !ValidUtf8(payload.value) {
      return Err(AuthenticationFailed(PayloadNotUtf8));
    }
    return Ok(payload.value);
  }

  class AuthState {
    var scram: ScramServer?
    var authenticated: Option<bytes>

    ghost function View(): Auth
      reads this, scram
    {
      Auth(if scram == null then None else Some((scram.mechanism, scram.View())), authenticated)
    }

    constructor ()
      ensures View() == Auth(None, None)
    {
      scram := null;
      authenticated := None;
    }

    method Start(body: bytes, nonce: bytes, lookup: Store) returns (r: Result<OpMsg, BridgeError>)
      modifies this
      ensures Outcome(View(), r) == SaslStart(old(View()), body, nonce, lookup)
      ensures scram == old(scram) || fresh(scram)
    {
      hide ReadText, ClaimedUsername, HandleClientFirst, SaslReply, MechanismField, Documents.RawGet;
      if scram != null {
        return Err(AuthenticationFailed(ExchangeInProgress));
      }
      var field := Decoder.FindRaw(body, MECHANISM);
      var mechanism := MechanismField(field);
      if mechanism.Err? {
        return Err(mechanism.error);
      }
      var text := FindText(body);
      if text.Err? {
        return Err(text.error);
      }
      var username := ClaimedUsername(text.value);
      if username == None {
        return Err(AuthenticationFailed(MalformedClientFirst));
      }
      var credentials := lookup(mechanism.value, username.value);
      if credentials == None {
        return Err(AuthenticationFailed(UnknownUser));
      }
      var server := new ScramServer(mechanism.value, nonce);
      var serverFirst := server.TakeClientFirst(text.value, username.value, credentials.value);
      if serverFirst.Err? {
        return Err(AuthenticationFailed(StepFailed(serverFirst.error)));
      }
      scram := server;
      r := BuildReply(1, false, serverFirst.value);
    }

    method Continue(k: Crypto, body: bytes) returns (r: Result<OpMsg, BridgeError>)
      modifies this, scram
      ensures Outcome(View(), r) == SaslContinue(k, old(View()), body)
      ensures scram == old(scram) || scram == null
    {
      hide ReadText, HandleClientFinal, SaslReply, IdField, Documents.RawGet;
      var text := FindText(body);
      if text.Err? {
        return Err(text.error);
      }
      if scram == null {
        return Err(AuthenticationFailed(NoExchange));
      }
      var server := scram;
      scram := null;
      var field := Decoder.FindRaw(body, CONVERSATION_ID);
      var id := IdField(field);
      var serverFinal := server.TakeClientFinal(k, text.value);
      if serverFinal.Err? {
        return Err(AuthenticationFailed(StepFailed(serverFinal.error)));
      }
      authenticated := Some(server.username);
      r := BuildReply(id, true, serverFinal.value);
    }
  }
}
