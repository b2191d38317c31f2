/** One session with a credential provider (crates/dv-core/src/credential_provider.rs). */
module CredentialSession {
  import opened Wrappers
  import opened Ascii
  import opened Spans
  import opened RuntimeVersions

  // The session (`ProviderSession` and `run`) meets any peer: it reads a stream of events and writes messages. The
  // reactions to single messages form a state machine, which the session's loops are proved to run.

  const PROTOCOL_VERSION := "2.0.0"
  const MAX_LOG_MESSAGE_BYTES: nat := 65_536

  // ---------------------------------------------------------------- messages

  datatype Kind = Cancel | Fault | Progress | Request | Response

  /** A field that should be text: present, null or absent, or something else. */
  datatype Secret = Text(value: string) | Absent | NotText

  /** The authentication types: null or absent, not a list, or a list. */
  datatype Types = AnyType | NotAList | OneOf(values: seq<string>)

  /** The payload fields that either side reads. */
  datatype Payload = Payload(responseCode: Option<string>, protocolVersion: Option<string>, claims: Option<seq<string>>,
                             log: Option<string>, username: Secret, password: Secret, types: Types)

  datatype Message = Message(id: string, kind: Kind, verb: string, payload: Payload)

  /** What one read yields: a message, bytes that are no message, the end of the stream, a failure, or nothing in time. */
  datatype Event = Arrives(message: Message) | Garbled | Ended | Broken | TimedOut | Interrupted

  datatype ErrorKind = Protocol | Io | Timeout | Cancelled | UserCancel

  const NO_PAYLOAD := Payload(None, None, None, None, Absent, Absent, AnyType)
  const SUCCESS := NO_PAYLOAD.(responseCode := Some("Success"))
  const NEGOTIATED := SUCCESS.(protocolVersion := Some(PROTOCOL_VERSION))

  function Ask(id: nat, verb: string): Message {
    Message(Decimal(id), Request, verb, NO_PAYLOAD)
  }

  function Answer(request: Message, payload: Payload): Message {
    Message(request.id, Response, request.verb, payload)
  }

  function EventError(event: Event): ErrorKind
    requires !event.Arrives?
  {
    match event
    case Garbled => Protocol
    case Ended => Protocol
    case Broken => Io
    case TimedOut => Timeout
    case Interrupted => Cancelled
  }

  // ---------------------------------------------------------------- the state machine

  datatype Step = Monitor | Initialize | Claims | LogLevel | Credentials

  function MethodOf(step: Step): string {
    match step
    case Monitor => "MonitorNuGetProcessExit"
    case Initialize => "Initialize"
    case Claims => "GetOperationClaims"
    case LogLevel => "SetLogLevel"
    case Credentials => "GetAuthenticationCredentials"
  }

  function IdOf(step: Step): nat {
    match step case Monitor => 2 case Initialize => 3 case Claims => 4 case LogLevel => 5 case Credentials => 6
  }

  datatype Outcome = Credential(username: string, password: string) | NotApplicable | UserCancelled | Failed(error: ErrorKind)

  datatype Host = Handshaking(received: bool, answered: bool) | Asking(step: Step) | Finished(outcome: Outcome, closed: bool)

  datatype Reaction = Reaction(host: Host, sends: seq<Message>)

  function Fail(error: ErrorKind): Reaction {
    Reaction(Finished(Failed(error), false), [])
  }

  function Go(step: Step): Reaction {
    Reaction(Asking(step), [Ask(IdOf(step), MethodOf(step))])
  }

  /** Ends the session in order: the provider is asked to close, and its input is shut. */
  function Close(step: Step, outcome: Outcome): Reaction {
    Reaction(Finished(outcome, true), [Ask(IdOf(step) + 1, "Close")])
  }

  function Required(message: Message, next: Reaction): Reaction {
    if message.payload.responseCode == Some("Success") then next else Fail(Protocol)
  }

  function SecretText(secret: Secret): Option<string> {
    match secret case Text(value) => Some(value) case Absent => Some("") case NotText => None
  }

  predicate AllowsBasic(types: Types) {
    match types
    case AnyType => true
    case NotAList => false
    case OneOf(values) => exists i | 0 <= i < |values| :: EqIgnoreCase(values[i], "basic")
  }

  function TakeCredential(payload: Payload): Reaction {
    match (SecretText(payload.username), SecretText(payload.password))
    case (Some(username), Some(password)) =>
      if username == "" && password == "" then Fail(Protocol)
      else Close(Credentials, if AllowsBasic(payload.types) then Credential(username, password) else NotApplicable)
    case _ => Fail(Protocol)
  }

  /** What the answer to one request leads to. */
  function After(step: Step, message: Message): Reaction {
    var payload := message.payload;
    match step
    case Monitor => Required(message, Go(Initialize))
    case Initialize => Required(message, Go(Claims))
    case Claims =>
      if payload.claims.None? then Fail(Protocol)
      else if "Authentication" in payload.claims.value then Go(LogLevel)
      else Close(Claims, NotApplicable)
    case LogLevel =>
      if payload.responseCode.None? then Fail(Protocol)
      else if payload.responseCode.value == "Success" then Go(Credentials)
      else Close(LogLevel, Failed(Protocol))
    case Credentials =>
      match payload.responseCode
      case None => Fail(Protocol)
      case Some(code) =>
        if code == "Success" then TakeCredential(payload)
        else if code == "Error" then Close(Credentials, NotApplicable)
        else if code == "NotFound" then Close(Credentials, UserCancelled)
        else Fail(Protocol)
  }

  function AcknowledgeLog(message: Message): Result<Message, ErrorKind> {
    match message.payload.log
    case None => Failure(Protocol)
    case Some(text) => if |text| > MAX_LOG_MESSAGE_BYTES then Failure(Protocol) else Success(Answer(message, SUCCESS))
  }

  /** How a pending request takes one message: it goes on waiting with an answer to send, ends, or has its response. */
  datatype Taken = Waits(sends: seq<Message>) | Fails(error: ErrorKind) | Responds

  function Take(id: string, verb: string, message: Message): Taken {
    var own := message.id == id;
    match message.kind
    case Progress => if own && message.verb == verb then Waits([]) else Fails(Protocol)
    case Response => if own && message.verb == verb then Responds else Fails(Protocol)
    case Fault => Fails(Protocol)
    case Cancel => Fails(if own then UserCancel else Protocol)
    case Request =>
      if message.verb == "Log" then
        match AcknowledgeLog(message)
        case Failure(error) => Fails(error)
        case Success(reply) => Waits([reply])
      else if message.verb == "Handshake" then Waits([Answer(message, NEGOTIATED)])
      else Fails(Protocol)
  }

  /** A message that ends the wait for a provider that may still run. */
  function Stop(event: Event, id: string, verb: string): seq<Message>
    requires !event.Arrives?
  {
    if event.TimedOut? || event.Interrupted? then [Message(id, Cancel, verb, NO_PAYLOAD)] else []
  }

  function React(host: Host, event: Event): Reaction {
    match host
    case Finished(_, _) => Reaction(host, [])
    case Handshaking(received, answered) => ReactHandshake(received, answered, event)
    case Asking(step) =>
      var id, verb := Decimal(IdOf(step)), MethodOf(step);
      match event
      case Arrives(message) =>
        (match Take(id, verb, message)
         case Waits(sends) => Reaction(host, sends)
         case Fails(error) => Fail(error)
         case Responds => After(step, message))
      case _ => Fail(EventError(event)).(sends := Stop(event, id, verb))
  }

  function ReactHandshake(received: bool, answered: bool, event: Event): Reaction {
    match event
    case Arrives(message) =>
      if message.kind == Request && message.verb == "Handshake" then
        var next := if received then Go(Monitor) else Reaction(Handshaking(received, true), []);
        next.(sends := [Answer(message, NEGOTIATED)] + next.sends)
      else if message.kind == Response && message.verb == "Handshake" && message.id == Decimal(1) then
        if message.payload.responseCode != Some("Success") || message.payload.protocolVersion != Some(PROTOCOL_VERSION)
        then Fail(Protocol)
        else if answered then Go(Monitor) else Reaction(Handshaking(true, answered), [])
      else Fail(Protocol)
    case _ => Fail(EventError(event)).(sends := Stop(event, Decimal(1), "Handshake"))
  }

  /** The whole session over a stream of events; a stream that runs out is a provider that says no more. */
  datatype Played = Played(host: Host, sends: seq<Message>, rest: seq<Event>)

  function Next(events: seq<Event>): Event {
    if events == [] then TimedOut else events[0]
  }

  function Rest(events: seq<Event>): seq<Event> {
    if events == [] then [] else events[1..]
  }

  function Play(host: Host, events: seq<Event>): Played
    decreases |events|
  {
    var reaction := React(host, Next(events));
    if host.Finished? then Played(host, [], events)
    else if events == [] then Played(reaction.host, reaction.sends, [])
    else
      var later := Play(reaction.host, events[1..]);
      later.(sends := reaction.sends + later.sends)
  }

  /** Silence ends every session. */
  lemma SilenceEnds(host: Host)
    ensures React(host, TimedOut).host.Finished?
  {
  }

  lemma {:induction false} PlayFinishes(host: Host, events: seq<Event>)
    ensures Play(host, events).host.Finished?
    decreases |events|
  {
    if events == [] {
      SilenceEnds(host);
    } else if !host.Finished? {
      PlayFinishes(React(host, events[0]).host, events[1..]);
    }
  }

  // ---------------------------------------------------------------- the session

  /** `played` continues what has been sent already. */
  function Behind(sends: seq<Message>, played: Played): Played {
    played.(sends := sends + played.sends)
  }

  /** The rest of the session once an event has been taken from the stream. */
  function Resume(reaction: Reaction, events: seq<Event>): Played {
    Behind(reaction.sends, Play(reaction.host, events))
  }

  lemma BehindTwice(a: seq<Message>, b: seq<Message>, played: Played)
    ensures Behind(a, Behind(b, played)) == Behind(a + b, played)
  {
    assert a + (b + played.sends) == (a + b) + played.sends;
  }

  lemma PlayResumes(host: Host, events: seq<Event>)
    requires !host.Finished?
    ensures Play(host, events) == Resume(React(host, Next(events)), Rest(events))
  {
    var reaction := React(host, Next(events));
    if events == [] {
      SilenceEnds(host);
      assert reaction.sends + [] == reaction.sends;
    }
  }

  class ProviderSession {
    var incoming: seq<Event>
    var sent: seq<Message>
    var nextRequestId: nat

    constructor (events: seq<Event>)
      ensures incoming == events && sent == [] && nextRequestId == 1
    {
      incoming, sent, nextRequestId := events, [], 1;
    }

    /** Identifiers count up and stick at the largest 32-bit number. */
    method AllocateRequestId() returns (id: string)
      modifies `nextRequestId
      ensures id == Decimal(old(nextRequestId))
      ensures nextRequestId == if old(nextRequestId) < U32_MAX then old(nextRequestId) + 1 else old(nextRequestId)
    {
      id := Decimal(nextRequestId);
      if nextRequestId < U32_MAX { nextRequestId := nextRequestId + 1; }
    }

    method Send(message: Message)
      modifies `sent
      ensures sent == old(sent) + [message]
    {
      sent := sent + [message];
    }

    /** One read. A provider that is silent too long, or a cancelled command, is told so. */
    method NextMessage(id: string, verb: string) returns (r: Result<Message, ErrorKind>)
      modifies `incoming, `sent
      ensures incoming == Rest(old(incoming))
      ensures var event := Next(old(incoming));
              if event.Arrives? then r == Success(event.message) && sent == old(sent)
              else r == Failure(EventError(event)) && sent == old(sent) + Stop(event, id, verb)
    {
      var event := Next(incoming);
      incoming := Rest(incoming);
      if event.Arrives? { return Success(event.message); }
      if event.TimedOut? || event.Interrupted? { Send(Message(id, Cancel, verb, NO_PAYLOAD)); }
      return Failure(EventError(event));
    }

    /** The session so far, and what the state machine would still do in state `host`. */
    ghost function Whole(host: Host): Played
      reads this
    {
      Behind(sent, Play(host, incoming))
    }

    /** The session so far, and the rest of it after `reaction`. */
    ghost function Onward(reaction: Reaction): Played
      reads this
    {
      Behind(sent, Resume(reaction, incoming))
    }

    ghost predicate FailedAs(error: ErrorKind, whole: Played)
      reads this
    {
      whole == Played(Finished(Failed(error), false), sent, incoming)
    }

    /** Both handshakes, in whichever order they come. */
    method Handshake() returns (r: Result<(), ErrorKind>)
      requires nextRequestId == 1
      modifies this
      ensures nextRequestId == 2
      ensures var whole := old(Onward(Reaction(Handshaking(false, false), [Ask(1, "Handshake")])));
              if r.Success? then Onward(Go(Monitor)) == whole else FailedAs(r.error, whole)
    {
      hide Play, React, Go;
      ghost var whole := Onward(Reaction(Handshaking(false, false), [Ask(1, "Handshake")]));
      ghost var atStart := sent;
      var id := AllocateRequestId();
      Send(Ask(1, "Handshake"));
      BehindTwice(atStart, [Ask(1, "Handshake")], Play(Handshaking(false, false), incoming));
      var receivedResponse, sentResponse := false, false;
      while !receivedResponse || !sentResponse
        invariant nextRequestId == 2
        invariant (if receivedResponse && sentResponse then Onward(Go(Monitor))
                  else Whole(Handshaking(receivedResponse, sentResponse))) == whole
        decreases |incoming|
      {
        ghost var state, event := Handshaking(receivedResponse, sentResponse), Next(incoming);
        ghost var before, events := sent, Rest(incoming);
        PlayResumes(state, incoming);
        BehindTwice(before, React(state, event).sends, Play(React(state, event).host, events));
        HandshakeReacts(receivedResponse, sentResponse, event);
        var message := NextMessage(id, "Handshake");
        if message.Failure? {
          FinishedPlays(Failed(message.error), false, events);
          return Failure(message.error);
        }
        var incoming' := message.value;
        if incoming'.kind == Kind.Request && incoming'.verb == "Handshake" {
          Send(Answer(incoming', NEGOTIATED));
          ResumeBehind(before, [Answer(incoming', NEGOTIATED)], Go(Monitor), events);
          sentResponse := true;
        } else if incoming'.kind == Response && incoming'.verb == "Handshake" && incoming'.id == id {
          if incoming'.payload.responseCode != Some("Success") || incoming'.payload.protocolVersion != Some(PROTOCOL_VERSION) {
            FinishedPlays(Failed(Protocol), false, events);
            return Failure(Protocol);
          }
          receivedResponse := true;
        } else {
          FinishedPlays(Failed(Protocol), false, events);
          return Failure(Protocol);
        }
      }
      return Success(());
    }

    /**
     * One request. Whatever the peer sends, only a response to this very request with this very method is returned; logs
     * and handshakes are answered on the way, and everything else ends the session.
     */
    method Request(step: Step) returns (r: Result<Message, ErrorKind>)
      requires nextRequestId == IdOf(step)
      modifies this
      ensures nextRequestId == IdOf(step) + 1
      ensures r.Success? ==> r.value.kind == Response && r.value.id == Decimal(IdOf(step)) && r.value.verb == MethodOf(step)
      ensures r.Success? ==> Arrives(r.value) in old(incoming)
      ensures var whole := old(Onward(Go(step)));
              if r.Success? then Onward(After(step, r.value)) == whole else FailedAs(r.error, whole)
    {
      hide Play, React, After, Take;
      ghost var whole, atStart := Onward(Go(step)), sent;
      var verb := MethodOf(step);
      var id := AllocateRequestId();
      Send(Ask(IdOf(step), verb));
      BehindTwice(atStart, [Ask(IdOf(step), verb)], Play(Asking(step), incoming));
      while true
        invariant nextRequestId == IdOf(step) + 1 && Whole(Asking(step)) == whole
        invariant forall event | event in incoming :: event in old(incoming)
        decreases |incoming|
      {
        ghost var event, before, events := Next(incoming), sent, Rest(incoming);
        PlayResumes(Asking(step), incoming);
        AskingReacts(step, event);
        BehindTwice(before, React(Asking(step), event).sends, Play(React(Asking(step), event).host, events));
        var message := NextMessage(id, verb);
        if message.Failure? {
          FinishedPlays(Failed(message.error), false, events);
          return Failure(message.error);
        }
        match Take(id, verb, message.value)
        case Responds =>
          TakesOwnResponse(id, verb, message.value);
          return message;
        case Fails(error) =>
          FinishedPlays(Failed(error), false, events);
          return Failure(error);
        case Waits(sends) =>
          sent := sent + sends;
      }
    }

    /** The order of requests, and what becomes of their answers. */
    method Run() returns (outcome: Outcome)
      requires nextRequestId == 1
      modifies this
      ensures exists closed: bool ::
                old(Onward(Reaction(Handshaking(false, false), [Ask(1, "Handshake")]))) ==
                    Played(Finished(outcome, closed), sent, incoming)
    {
      hide Play, React;
      ghost var whole := Onward(Reaction(Handshaking(false, false), [Ask(1, "Handshake")]));
      var greeted := Handshake();
      if greeted.Failure? { return Failed(greeted.error); }
      var monitor := Request(Monitor);
      if monitor.Failure? { return Failed(monitor.error); }
      if monitor.value.payload.responseCode != Some("Success") { GivesUp(sent, incoming); return Failed(Protocol); }
      var initialize := Request(Initialize);
      if initialize.Failure? { return Failed(initialize.error); }
      if initialize.value.payload.responseCode != Some("Success") { GivesUp(sent, incoming); return Failed(Protocol); }
      var claims := Request(Claims);
      if claims.Failure? { return Failed(claims.error); }
      if claims.value.payload.claims.None? { GivesUp(sent, incoming); return Failed(Protocol); }
      if "Authentication" !in claims.value.payload.claims.value {
        CloseSession(Claims, NotApplicable);
        return NotApplicable;
      }
      var logLevel := Request(LogLevel);
      if logLevel.Failure? { return Failed(logLevel.error); }
      if logLevel.value.payload.responseCode.None? { GivesUp(sent, incoming); return Failed(Protocol); }
      if logLevel.value.payload.responseCode.value != "Success" {
        CloseSession(LogLevel, Failed(Protocol));
        return Failed(Protocol);
      }
      outcome := RequestCredential(whole);
    }

    /** The last request of a session. */
    method RequestCredential(ghost whole: Played) returns (outcome: Outcome)
      requires nextRequestId == IdOf(Credentials) && Onward(Go(Credentials)) == whole
      modifies this
      ensures exists closed: bool :: whole == Played(Finished(outcome, closed), sent, incoming)
    {
      hide Play, React;
      var response := Request(Credentials);
      if response.Failure? { return Failed(response.error); }
      var payload := response.value.payload;
      if payload.responseCode.None? { GivesUp(sent, incoming); return Failed(Protocol); }
      match payload.responseCode.value {
        case "Success" =>
          var username, password := SecretText(payload.username), SecretText(payload.password);
          if username.None? || password.None? { GivesUp(sent, incoming); return Failed(Protocol); }
          if username.value == "" && password.value == "" { GivesUp(sent, incoming); return Failed(Protocol); }
          outcome := if AllowsBasic(payload.types) then Credential(username.value, password.value) else NotApplicable;
        case "Error" => outcome := NotApplicable;
        case "NotFound" => outcome := UserCancelled;
        case _ => GivesUp(sent, incoming); return Failed(Protocol);
      }
      CloseSession(Credentials, outcome);
    }

    /** Asks the provider to close and shuts its input. */
    method CloseSession(ghost step: Step, ghost outcome: Outcome)
      requires nextRequestId == IdOf(step) + 1
      modifies this
      ensures old(Onward(Close(step, outcome))) == Played(Finished(outcome, true), sent, incoming)
    {
      FinishedPlays(outcome, true, incoming);
      var id := AllocateRequestId();
      Send(Message(id, Kind.Request, "Close", NO_PAYLOAD));
    }
  }

  /** One turn of the request loop. */
  lemma AskingReacts(step: Step, event: Event)
    ensures var r, id, verb := React(Asking(step), event), Decimal(IdOf(step)), MethodOf(step);
            if !event.Arrives? then r == Fail(EventError(event)).(sends := Stop(event, id, verb))
            else match Take(id, verb, event.message)
                 case Waits(sends) => r == Reaction(Asking(step), sends)
                 case Fails(error) => r == Fail(error)
                 case Responds => r == After(step, event.message)
  {
    hide Take, After;
  }

  lemma TakesOwnResponse(id: string, verb: string, message: Message)
    requires Take(id, verb, message).Responds?
    ensures message.kind == Response && message.id == id && message.verb == verb
  {
  }

  lemma GivesUp(sent: seq<Message>, events: seq<Event>)
    ensures Behind(sent, Resume(Fail(Protocol), events)) == Played(Finished(Failed(Protocol), false), sent, events)
  {
    FinishedPlays(Failed(Protocol), false, events);
    assert sent + ([] + []) == sent;
  }

  lemma ResumeBehind(before: seq<Message>, sends: seq<Message>, reaction: Reaction, events: seq<Event>)
    ensures Behind(before, Resume(reaction.(sends := sends + reaction.sends), events)) ==
              Behind(before + sends, Resume(reaction, events))
  {
    hide Play;
    var played := Play(reaction.host, events);
    assert before + ((sends + reaction.sends) + played.sends) == (before + sends) + (reaction.sends + played.sends);
  }

  lemma FinishedPlays(outcome: Outcome, closed: bool, events: seq<Event>)
    ensures Play(Finished(outcome, closed), events) == Played(Finished(outcome, closed), [], events)
  {
  }

  /** One turn of the handshake loop. */
  lemma HandshakeReacts(received: bool, answered: bool, event: Event)
    ensures var r := React(Handshaking(received, answered), event);
            if !event.Arrives? then r == Fail(EventError(event)).(sends := Stop(event, Decimal(1), "Handshake"))
            else if event.message.kind == Request && event.message.verb == "Handshake" then
              r == if received then Go(Monitor).(sends := [Answer(event.message, NEGOTIATED)] + Go(Monitor).sends)
                   else Reaction(Handshaking(received, true), [Answer(event.message, NEGOTIATED)])
            else if event.message.kind == Response && event.message.verb == "Handshake" && event.message.id == Decimal(1) then
              r == if event.message.payload.responseCode != Some("Success")
                  || event.message.payload.protocolVersion != Some(PROTOCOL_VERSION)
                   then Fail(Protocol) else if answered then Go(Monitor) else Reaction(Handshaking(true, answered), [])
            else r == Fail(Protocol)
  {
  }

  // ---------------------------------------------------------------- acquiring a credential

  /** What a provider comes to that sends these events. */
  function SessionOutcome(events: seq<Event>): Outcome {
    PlayFinishes(Handshaking(false, false), events);
    Play(Handshaking(false, false), events).host.outcome
  }

  datatype Acquired = Found(username: string, password: string, provider: nat) | Declined(provider: nat) | NoProvider
      | NoLonger(provider: nat) | Aborted(error: ErrorKind)

  /** A provider that leaves the next one its turn. */
  predicate Passes(outcome: Outcome) {
    outcome.NotApplicable? || outcome.UserCancelled?
  }

  /**
   * Asks the preferred provider, or all of them in order. The first credential wins, the first error ends the search,
   * and the last provider that declined is reported if nobody has a credential.
   */
  method Acquire(providers: seq<seq<Event>>, preferred: Option<nat>, cancelled: bool) returns (r: Acquired)
    requires preferred.Some? ==> preferred.value < |providers|
    ensures cancelled ==> r == Aborted(Cancelled)
    ensures !cancelled && preferred.Some? ==>
              var k := preferred.value;
              r == match SessionOutcome(providers[k])
                   case Credential(username, password) => Found(username, password, k)
                   case NotApplicable => NoLonger(k)
                   case UserCancelled => Declined(k)
                   case Failed(error) => Aborted(error)
    ensures !cancelled && preferred.None? ==>
              match r
              case Found(username, password, k) =>
                k < |providers| && SessionOutcome(providers[k]) == Credential(username, password) && AllPass(providers, k)
              case Aborted(error) =>
                exists k :: 0 <= k < |providers| && SessionOutcome(providers[k]) == Failed(error) && AllPass(providers, k)
              case Declined(k) =>
                && AllPass(providers, |providers|) && k < |providers| && SessionOutcome(providers[k]) == UserCancelled
                && forall j | k < j < |providers| :: SessionOutcome(providers[j]) == NotApplicable
              case NoProvider => forall j | 0 <= j < |providers| :: SessionOutcome(providers[j]) == NotApplicable
              case NoLonger(_) => false
  {
    hide Play;
    if cancelled { return Aborted(Cancelled); }
    if preferred.Some? {
      var outcome := RunProvider(providers[preferred.value]);
      return match outcome
        case Credential(username, password) => Found(username, password, preferred.value)
        case NotApplicable => NoLonger(preferred.value)
        case UserCancelled => Declined(preferred.value)
        case Failed(error) => Aborted(error);
    }
    var userCancelled: Option<nat> := None;
    var index := 0;
    while index < |providers|
      invariant index <= |providers| && AllPass(providers, index)
      invariant userCancelled.None? ==> forall j | 0 <= j < index :: SessionOutcome(providers[j]) == NotApplicable
      invariant userCancelled.Some? ==>
                  && userCancelled.value < index && SessionOutcome(providers[userCancelled.value]) == UserCancelled
                  && forall j | userCancelled.value < j < index :: SessionOutcome(providers[j]) == NotApplicable
    {
      var outcome := RunProvider(providers[index]);
      match outcome {
        case Credential(username, password) => return Found(username, password, index);
        case Failed(error) => return Aborted(error);
        case UserCancelled => userCancelled := Some(index);
        case NotApplicable =>
      }
      index := index + 1;
    }
    return if userCancelled.Some? then Declined(userCancelled.value) else NoProvider;
  }

  ghost predicate AllPass(providers: seq<seq<Event>>, n: nat)
    requires n <= |providers|
  {
    forall j | 0 <= j < n :: Passes(SessionOutcome(providers[j]))
  }

  /** One provider process from start to end. */
  method RunProvider(events: seq<Event>) returns (outcome: Outcome)
    ensures outcome == SessionOutcome(events)
  {
    hide Play;
    var session := new ProviderSession(events);
    outcome := session.Run();
  }
}
