/** What holds over every run of SASL and other commands on one connection
    (mongowire/src/api/auth.rs). */
module BridgeTheorems {
  import opened Bytes
  import opened ScramText
  import opened Scram
  import opened ScramTheorems
  import opened Bridge

  // ------------------------------------------------------------ the claimed name

  /** The name the bridge looks credentials up for is the unescaped `n=`
      attribute the server itself parses out of an accepted message. */
  lemma ClaimedIsParsed(msg: bytes)
    requires StripGs2(msg).Ok? && ClientNonce(StripGs2(msg).value).Ok?
    ensures var attrs := ParseAttributes(StripGs2(msg).value).value;
            && attrs[0].key == [USERNAME_KEY]
            && ClaimedUsername(msg) == Some(Unescape(attrs[0].value))
  {
    hide Split, Unescape, ParseParts;
    var bare := StripGs2(msg).value;
    var attrs := ParseAttributes(bare).value;
    PartsOf(Split(bare), 0);
    assert Split(bare)[0] == [USERNAME_KEY] + ([EQUALS] + attrs[0].value);
    assert Split(bare)[0][2..] == attrs[0].value;
  }

  // ------------------------------------------------------------ runs

  /** One command: the document, for `saslStart` also the fresh server nonce and
      the credential store at that time. Every other command goes to the inner
      handler, which holds the connection state and may overwrite it. */
  datatype Event =
    | Start(body: bytes, nonce: bytes, lookup: Store)
    | Continue(body: bytes)
    | Other(written: Option<Auth>)

  function Apply(k: Crypto, auth: Auth, e: Event): Auth {
    match e
    case Start(body, nonce, lookup) => SaslStart(auth, body, nonce, lookup).auth
    case Continue(body) => SaslContinue(k, auth, body).auth
    case Other(written) => if written.Some? then written.value else auth
  }

  /** The state after a run of a new connection. */
  function Run(k: Crypto, events: seq<Event>): Auth {
    if events == [] then Auth(None, None)
    else Apply(k, Run(k, events[..|events| - 1]), events[|events| - 1])
  }

  /** `e` is the `saslStart` that created server `s`: with the credentials the
      store held for the claimed name, under the mechanism asked for. */
  predicate Opens(e: Event, m: Mechanism, s: Server) {
    && e.Start?
    && ReadMechanism(e.body) == Ok(m)
    && ReadText(e.body).Ok?
    && ClaimedUsername(ReadText(e.body).value) == Some(s.username)
    && e.lookup(m, s.username).Some?
    && HandleClientFirst(NewServer(m, e.nonce), ReadText(e.body).value, s.username, e.lookup(m, s.username).value) ==
       Step(s, Ok(s.serverFirstMessage))
  }

  /** `e` is a `saslContinue` whose message `s` verifies. */
  predicate Closes(k: Crypto, e: Event, s: Server) {
    && e.Continue?
    && ReadText(e.body).Ok?
    && HandleClientFinal(k, s, ReadText(e.body).value).result.Ok?
  }

  /** `e` is an inner handler's write that put server `s` there itself. */
  predicate Plants(e: Event, m: Mechanism, s: Server) {
    e.Other? && e.written.Some? && e.written.value.scram == Some((m, s))
  }

  /** The exchange that event `i` opened, or planted, is in flight up to the
      `j`-th event. */
  ghost predicate InFlight(k: Crypto, events: seq<Event>, i: nat, j: nat, m: Mechanism, s: Server) {
    && i < j <= |events|
    && (Opens(events[i], m, s) || Plants(events[i], m, s))
    && forall x {:trigger events[..x]} :: i < x <= j ==> Run(k, events[..x]).scram == Some((m, s))
  }

  /** Event `i` opened and event `j` closed the exchange that authenticated
      `name`, and the identity has stood since. */
  ghost predicate LoggedIn(k: Crypto, events: seq<Event>, i: nat, j: nat, name: bytes) {
    && i < j < |events|
    && Run(k, events[..j]).scram.Some?
    && (var (m, s) := Run(k, events[..j]).scram.value;
        InFlight(k, events, i, j, m, s) && Closes(k, events[j], s) && s.username == name)
    && forall x {:trigger events[..x]} :: j < x <= |events| ==> Run(k, events[..x]).authenticated == Some(name)
  }

  /** An inner handler's write at event `j` set the identity, and it has stood
      since. */
  ghost predicate Granted(k: Crypto, events: seq<Event>, j: nat, name: bytes) {
    && j < |events|
    && events[j].Other? && events[j].written.Some? && events[j].written.value.authenticated == Some(name)
    && forall x {:trigger events[..x]} :: j < x <= |events| ==> Run(k, events[..x]).authenticated == Some(name)
  }

  lemma RunPrefix(k: Crypto, events: seq<Event>, e: Event, x: nat)
    requires x <= |events|
    ensures (events + [e])[..x] == events[..x]
  {
  }

  lemma RunLast(k: Crypto, events: seq<Event>, e: Event)
    ensures Run(k, events + [e]) == Apply(k, Run(k, events), e)
    ensures Run(k, (events + [e])[..|events| + 1]) == Apply(k, Run(k, events), e)
  {
    hide Apply;
    assert (events + [e])[..|events|] == events;
    assert (events + [e])[..|events| + 1] == events + [e];
  }

  /** What one command can do to the state. A `saslContinue` that carries a
      readable message always takes the server out. */
  lemma ApplyCases(k: Crypto, auth: Auth, e: Event)
    ensures var next := Apply(k, auth, e);
            || next == auth
            || (e.Other? && e.written == Some(next))
            || (auth.scram == None && next.scram.Some? && next.authenticated == auth.authenticated
                && Opens(e, next.scram.value.0, next.scram.value.1))
            || (e.Continue? && auth.scram.Some? && next == Auth(None, auth.authenticated))
            || (auth.scram.Some? && Closes(k, e, auth.scram.value.1)
                && next == Auth(None, Some(auth.scram.value.1.username)))
    ensures Reads(e) ==> Apply(k, auth, e).scram == None
  {
    hide ReadMechanism, ReadText, ClaimedUsername, StripGs2, ClientNonce, CheckClientFinal, ServerFirstMessage,
      SaslReply, ConversationId;
  }

  /** A `saslContinue` with a readable message. */
  predicate Reads(e: Event) {
    e.Continue? && ReadText(e.body).Ok?
  }

  // ------------------------------------------------------------ one try per exchange

  /** A `saslContinue` in full: an unreadable payload changes nothing; otherwise
      the exchange is over, the identity changes exactly when the message proves
      the stored key, and a failed proof is refused with its reason. */
  lemma ContinueIs(k: Crypto, auth: Auth, body: bytes)
    ensures var text, o := ReadText(body), SaslContinue(k, auth, body);
            && (text.Err? ==> o == Outcome(auth, Err(text.error)))
            && (text.Ok? ==> o.auth.scram == None)
            && (text.Ok? && auth.scram == None ==> o == Refuse(auth, NoExchange))
            && (text.Ok? && auth.scram.Some? ==>
                  var step := HandleClientFinal(k, auth.scram.value.1, text.value).result;
                  if step.Ok? then
                    && o.auth.authenticated == Some(auth.scram.value.1.username)
                    && o.reply == SaslReply(ConversationId(body), true, step.value)
                  else o == Refuse(Auth(None, auth.authenticated), StepFailed(step.error)))
  {
    hide ReadText, CheckClientFinal, SaslReply, ConversationId;
  }

  /** After a readable client-final, right or wrong, the next one is refused and
      changes nothing until a new `saslStart`. */
  lemma NoSecondTry(k: Crypto, auth: Auth, first: bytes, second: bytes)
    requires ReadText(first).Ok? && ReadText(second).Ok?
    ensures var after := SaslContinue(k, auth, first).auth;
            SaslContinue(k, after, second) == Refuse(after, NoExchange)
  {
    hide ReadText, HandleClientFinal, SaslReply, ConversationId, SaslContinue;
    ContinueIs(k, auth, first);
    ContinueIs(k, SaslContinue(k, auth, first).auth, second);
  }

  /** Over every run, at most one client-final is checked against the server an
      event put in flight. */
  lemma OneTryPerStart(k: Crypto, events: seq<Event>, i: nat, j: nat, j': nat, m: Mechanism, s: Server)
    requires InFlight(k, events, i, j, m, s) && j < |events| && Reads(events[j])
    requires j < j' <= |events|
    ensures !InFlight(k, events, i, j', m, s)
  {
    hide Opens, Plants, Run, Reads;
    assert events[..j + 1][..j] == events[..j];
    RunLast(k, events[..j], events[j]);
    assert events[..j] + [events[j]] == events[..j + 1];
    ApplyCases(k, Run(k, events[..j]), events[j]);
    assert Run(k, events[..j + 1]).scram == None;
  }

  lemma InFlightGrows(k: Crypto, events: seq<Event>, e: Event, i: nat, j: nat, m: Mechanism, s: Server)
    requires InFlight(k, events, i, j, m, s)
    ensures InFlight(k, events + [e], i, j, m, s)
  {
    hide Opens, Plants, Run;
    forall x | i < x <= j
      ensures Run(k, (events + [e])[..x]).scram == Some((m, s))
    {
      RunPrefix(k, events, e, x);
      assert Run(k, events[..x]).scram == Some((m, s));
    }
  }

  lemma InFlightStays(k: Crypto, events: seq<Event>, e: Event, i: nat, m: Mechanism, s: Server)
    requires InFlight(k, events, i, |events|, m, s)
    requires Apply(k, Run(k, events), e).scram == Some((m, s))
    ensures InFlight(k, events + [e], i, |events| + 1, m, s)
  {
    hide Opens, Plants, Run, Apply;
    InFlightGrows(k, events, e, i, |events|, m, s);
    RunLast(k, events, e);
    forall x | i < x <= |events| + 1
      ensures Run(k, (events + [e])[..x]).scram == Some((m, s))
    {
    }
  }

  lemma InFlightStarts(k: Crypto, events: seq<Event>, e: Event, m: Mechanism, s: Server)
    requires Opens(e, m, s) || Plants(e, m, s)
    requires Apply(k, Run(k, events), e).scram == Some((m, s))
    ensures InFlight(k, events + [e], |events|, |events| + 1, m, s)
  {
    hide Opens, Plants, Run, Apply;
    RunLast(k, events, e);
  }

  lemma LoggedInStays(k: Crypto, events: seq<Event>, e: Event, i: nat, j: nat, name: bytes)
    requires LoggedIn(k, events, i, j, name)
    requires Apply(k, Run(k, events), e).authenticated == Some(name)
    ensures LoggedIn(k, events + [e], i, j, name)
  {
    hide InFlight, Closes, Run, Apply;
    var (m, s) := Run(k, events[..j]).scram.value;
    RunPrefix(k, events, e, j);
    InFlightGrows(k, events, e, i, j, m, s);
    RunLast(k, events, e);
    forall x | j < x <= |events| + 1
      ensures Run(k, (events + [e])[..x]).authenticated == Some(name)
    {
      if x <= |events| {
        RunPrefix(k, events, e, x);
        assert Run(k, events[..x]).authenticated == Some(name);
      }
    }
  }

  lemma LoggedInStarts(k: Crypto, events: seq<Event>, e: Event, i: nat, m: Mechanism, s: Server)
    requires Run(k, events).scram == Some((m, s))
    requires InFlight(k, events, i, |events|, m, s) && Closes(k, e, s)
    requires Apply(k, Run(k, events), e).authenticated == Some(s.username)
    ensures LoggedIn(k, events + [e], i, |events|, s.username)
  {
    hide InFlight, Closes, Run, Apply;
    InFlightBound(k, events, i, |events|, m, s);
    RunPrefix(k, events, e, |events|);
    assert events[..|events|] == events;
    InFlightGrows(k, events, e, i, |events|, m, s);
    RunLast(k, events, e);
  }

  lemma GrantedStays(k: Crypto, events: seq<Event>, e: Event, j: nat, name: bytes)
    requires Granted(k, events, j, name)
    requires Apply(k, Run(k, events), e).authenticated == Some(name)
    ensures Granted(k, events + [e], j, name)
  {
    hide Run, Apply;
    RunLast(k, events, e);
    forall x | j < x <= |events| + 1
      ensures Run(k, (events + [e])[..x]).authenticated == Some(name)
    {
      if x <= |events| {
        RunPrefix(k, events, e, x);
        assert Run(k, events[..x]).authenticated == Some(name);
      }
    }
  }

  lemma GrantedStarts(k: Crypto, events: seq<Event>, e: Event, name: bytes)
    requires e.Other? && e.written.Some? && e.written.value.authenticated == Some(name)
    ensures Granted(k, events + [e], |events|, name)
  {
    hide Run;
    RunLast(k, events, e);
  }

  lemma InFlightBound(k: Crypto, events: seq<Event>, i: nat, j: nat, m: Mechanism, s: Server)
    requires InFlight(k, events, i, j, m, s)
    ensures i < j <= |events|
  {
  }

  /** The state has a history: an exchange in flight was opened by one earlier
      `saslStart` and nothing has touched it since, and the authenticated
      identity is the one a `saslStart` claimed and a later `saslContinue`
      proved against the credentials looked up for it. The only other origin of
      either is a write by an inner handler. */
  ghost predicate Justified(k: Crypto, events: seq<Event>, auth: Auth) {
    && (auth.scram.Some? ==> exists i :: InFlight(k, events, i, |events|, auth.scram.value.0, auth.scram.value.1))
    && (auth.authenticated.Some? ==>
          || (exists i, j :: LoggedIn(k, events, i, j, auth.authenticated.value))
          || (exists j :: Granted(k, events, j, auth.authenticated.value)))
  }

  lemma ScramJustified(k: Crypto, past: seq<Event>, e: Event, m: Mechanism, s: Server)
    requires Justified(k, past, Run(k, past)) && Apply(k, Run(k, past), e).scram == Some((m, s))
    ensures exists i :: InFlight(k, past + [e], i, |past + [e]|, m, s)
  {
    hide InFlight, LoggedIn, Granted, Opens, Closes, Apply, Run;
    var before, after := Run(k, past), Apply(k, Run(k, past), e);
    ApplyCases(k, before, e);
    assert |past + [e]| == |past| + 1;
    if before.scram == after.scram {
      var i :| InFlight(k, past, i, |past|, m, s);
      InFlightStays(k, past, e, i, m, s);
    } else {
      InFlightStarts(k, past, e, m, s);
    }
  }

  lemma NameJustified(k: Crypto, past: seq<Event>, e: Event, name: bytes)
    requires Justified(k, past, Run(k, past)) && Apply(k, Run(k, past), e).authenticated == Some(name)
    ensures (exists i, j :: LoggedIn(k, past + [e], i, j, name)) || (exists j :: Granted(k, past + [e], j, name))
  {
    hide InFlight, LoggedIn, Granted, Opens, Closes, Apply, Run;
    var before, after := Run(k, past), Apply(k, Run(k, past), e);
    ApplyCases(k, before, e);
    if e.Other? && e.written == Some(after) {
      GrantedStarts(k, past, e, name);
    } else if before.scram.Some? && Closes(k, e, before.scram.value.1) && before.scram.value.1.username == name
              && after == Auth(None, Some(name)) {
      var (m, s) := before.scram.value;
      var i :| InFlight(k, past, i, |past|, m, s);
      LoggedInStarts(k, past, e, i, m, s);
    } else if i, j :| LoggedIn(k, past, i, j, name) {
      LoggedInStays(k, past, e, i, j, name);
    } else {
      var j :| Granted(k, past, j, name);
      GrantedStays(k, past, e, j, name);
    }
  }

  /** Over every run of SASL and other commands, with any inner handler. */
  lemma {:induction false} EveryRun(k: Crypto, events: seq<Event>)
    ensures Justified(k, events, Run(k, events))
  {
    hide InFlight, LoggedIn, Granted, Apply;
    if events != [] {
      var past, e := events[..|events| - 1], events[|events| - 1];
      assert events == past + [e];
      EveryRun(k, past);
      var auth := Run(k, events);
      if auth.scram.Some? {
        ScramJustified(k, past, e, auth.scram.value.0, auth.scram.value.1);
      }
      if auth.authenticated.Some? {
        NameJustified(k, past, e, auth.authenticated.value);
      }
    }
  }

  /** With an inner handler that leaves the state alone, the bridge is the only
      origin: a server in flight comes from a `saslStart`, and the identity from
      a verified exchange that a `saslStart` opened. */
  lemma BridgeIsTheOnlyOrigin(k: Crypto, events: seq<Event>)
    requires forall i :: 0 <= i < |events| && events[i].Other? ==> events[i].written == None
    ensures var auth := Run(k, events);
            && (auth.scram.Some? ==>
                  exists i: nat :: InFlight(k, events, i, |events|, auth.scram.value.0, auth.scram.value.1)
                                   && Opens(events[i], auth.scram.value.0, auth.scram.value.1))
            && (auth.authenticated.Some? ==>
                  exists i, j :: LoggedIn(k, events, i, j, auth.authenticated.value) && OpenedBy(k, events, i, j))
  {
    hide Opens, Closes, Run;
    EveryRun(k, events);
    var auth := Run(k, events);
    if auth.scram.Some? {
      var i: nat :| InFlight(k, events, i, |events|, auth.scram.value.0, auth.scram.value.1);
      assert Opens(events[i], auth.scram.value.0, auth.scram.value.1);
    }
    if auth.authenticated.Some? {
      var i: nat, j: nat :| LoggedIn(k, events, i, j, auth.authenticated.value);
      assert OpenedBy(k, events, i, j);
    }
  }

  /** The server that event `j` met was created by the `saslStart` at `i`. */
  ghost predicate OpenedBy(k: Crypto, events: seq<Event>, i: nat, j: nat) {
    && i < j <= |events| && Run(k, events[..j]).scram.Some?
    && Opens(events[i], Run(k, events[..j]).scram.value.0, Run(k, events[..j]).scram.value.1)
  }

  /** The shape of a server in flight: it awaits client-final, holds the
      credentials it was opened with, and its username is the unescaped `n=`
      attribute of the message it parsed. */
  lemma OpenServer(e: Event, m: Mechanism, s: Server)
    requires Opens(e, m, s)
    ensures s.phase == ExpectClientFinal && s.mechanism == m
    ensures s.credentials == e.lookup(m, s.username)
    ensures ParseAttributes(s.clientFirstBare).Some?
    ensures var attrs := ParseAttributes(s.clientFirstBare).value;
            attrs[0].key == [USERNAME_KEY] && s.username == Unescape(attrs[0].value)
    ensures StripGs2(ReadText(e.body).value) == Ok(s.clientFirstBare)
  {
    hide ReadMechanism, ReadText, ClaimedUsername, Unescape, ParseAttributes, ServerFirstMessage;
    ClaimedIsParsed(ReadText(e.body).value);
  }

  /** A verified `saslContinue` carries a proof of the stored key over the
      transcript of the two messages and the reply between them. */
  lemma ClosedServer(k: Crypto, e: Event, s: Server)
    requires Closes(k, e, s)
    ensures s.credentials.Some?
    ensures exists proof :: multiset(Split(ReadText(e.body).value)) == FinalParts(FullNonce(s), proof)
                            && Proves(k, s.mechanism, s.credentials.value, AuthMessage(s), proof)
  {
    hide ReadText, Split, FinalParts, Proves, AuthMessage, HandleClientFinal;
    FinalAcceptedIff(k, s, ReadText(e.body).value);
  }
}
