/**
 * What a session with a credential provider comes to, told by the provider's messages alone: which stretches of the
 * stream are greetings, noise and answers, and how each kind of next event ends it.
 */
module CredentialTheory {
  import opened Wrappers
  import opened Ascii
  import opened RuntimeVersions
  import opened CredentialSession

  // ---------------------------------------------------------------- the messages of a session

  /** The requests behind the handshake. Request `k` has the number `k + 2`. */
  const METHODS := ["MonitorNuGetProcessExit", "Initialize", "GetOperationClaims", "SetLogLevel", "GetAuthenticationCredentials"]
  const CREDENTIALS: nat := 4

  const NOTHING := Payload(None, None, None, None, Absent, Absent, AnyType)

  function Asked(number: nat, verb: string): Message {
    Message(Decimal(number), Request, verb, NOTHING)
  }

  predicate IsFor(k: nat, m: Message)
    requires k < |METHODS|
  {
    m.id == Decimal(k + 2) && m.verb == METHODS[k]
  }

  /** What a provider may send at any time while a request is pending. */
  predicate Noise(k: nat, event: Event)
    requires k < |METHODS|
  {
    event.Arrives? && var m := event.message;
    || (m.kind == Progress && IsFor(k, m))
    || (m.kind == Request && m.verb == "Log" && m.payload.log.Some? && |m.payload.log.value| <= 65536)
    || (m.kind == Request && m.verb == "Handshake")
  }

  /** The replies to requests of the provider. */
  function Reply(event: Event): seq<Message> {
    if !event.Arrives? || event.message.kind != Request then []
    else if event.message.verb == "Log" then
      [Message(event.message.id, Response, "Log", Payload(Some("Success"), None, None, None, Absent, Absent, AnyType))]
    else if event.message.verb == "Handshake" then
      [Message(event.message.id, Response, "Handshake",
          Payload(Some("Success"), Some("2.0.0"), None, None, Absent, Absent, AnyType))]
    else []
  }

  function Replies(events: seq<Event>, from: nat, until: nat): seq<Message>
    requires from <= until <= |events|
    decreases until
  {
    if from == until then [] else Replies(events, from, until - 1) + Reply(events[until - 1])
  }

  /** A response to the pending request. */
  predicate IsAnswer(k: nat, event: Event)
    requires k < |METHODS|
  {
    event.Arrives? && event.message.kind == Response && IsFor(k, event.message)
  }

  /** An answer that the next request follows. */
  predicate LeadsOn(k: nat, event: Event)
    requires k < |METHODS|
  {
    && IsAnswer(k, event) && k < CREDENTIALS
    && var p := event.message.payload;
       if k == 2 then p.claims.Some? && "Authentication" in p.claims.value else p.responseCode == Some("Success")
  }

  // ---------------------------------------------------------------- endings

  predicate Spells(secret: Secret, text: string) {
    secret == Text(text) || (secret.Absent? && text == "")
  }

  predicate HasCredential(p: Payload, username: string, password: string) {
    Spells(p.username, username) && Spells(p.password, password) && (username != "" || password != "")
  }

  predicate SupportsBasic(types: Types) {
    types.AnyType? || (types.OneOf? && exists i | 0 <= i < |types.values| :: EqIgnoreCase(types.values[i], "basic"))
  }

  /** An answer that no session goes on with and none comes to a result by. */
  ghost predicate Unfit(k: nat, p: Payload) {
    match k
    case 0 => p.responseCode != Some("Success")
    case 1 => p.responseCode != Some("Success")
    case 2 => p.claims.None?
    case 3 => p.responseCode != Some("Success")
    case _ =>
      && p.responseCode != Some("Error") && p.responseCode != Some("NotFound")
      && (p.responseCode == Some("Success") ==> forall u, v :: !HasCredential(p, u, v))
  }

  /** A message that has no place while request `k` is pending. */
  predicate Misplaced(k: nat, m: Message)
    requires k < |METHODS|
  {
    match m.kind
    case Fault => true
    case Cancel => m.id != Decimal(k + 2)
    case Progress => !IsFor(k, m)
    case Response => !IsFor(k, m)
    case Request => m.verb != "Handshake" && (m.verb == "Log" ==> m.payload.log.None? || |m.payload.log.value| > 65536)
  }

  /** The errors of a stream that gives no message. */
  predicate Breaks(event: Event, error: ErrorKind) {
    match event
    case Arrives(_) => false
    case Garbled => error == Protocol
    case Ended => error == Protocol
    case Broken => error == Io
    case TimedOut => error == Timeout
    case Interrupted => error == ErrorKind.Cancelled
  }

  /** The next event ends the session with this outcome while request `k` is pending. */
  ghost predicate Ending(k: nat, event: Event, outcome: Outcome)
    requires k < |METHODS|
  {
    match outcome
    case Credential(u, v) =>
      && IsAnswer(k, event) && k == CREDENTIALS && event.message.payload.responseCode == Some("Success")
      && HasCredential(event.message.payload, u, v) && SupportsBasic(event.message.payload.types)
    case NotApplicable =>
      IsAnswer(k, event) && var p := event.message.payload;
      || (k == 2 && p.claims.Some? && "Authentication" !in p.claims.value)
      || (k == CREDENTIALS && p.responseCode == Some("Error"))
      || (k == CREDENTIALS && p.responseCode == Some("Success") && !SupportsBasic(p.types)
          && exists u, v :: HasCredential(p, u, v))
    case UserCancelled => IsAnswer(k, event) && k == CREDENTIALS && event.message.payload.responseCode == Some("NotFound")
    case Failed(error) =>
      || Breaks(event, error)
      || (error == UserCancel && event.Arrives? && event.message.kind == Kind.Cancel && event.message.id == Decimal(k + 2))
      || (error == Protocol && event.Arrives? && Misplaced(k, event.message))
      || (error == Protocol && IsAnswer(k, event) && Unfit(k, event.message.payload))
  }

  /** The last words: a close request behind a definite answer, a cancellation when the provider may still be at work. */
  function Farewell(k: nat, event: Event, outcome: Outcome): seq<Message>
    requires k < |METHODS|
  {
    if !outcome.Failed? || (k == 3 && IsAnswer(k, event) && event.message.payload.responseCode.Some?) then
      [Asked(k + 3, "Close")]
    else if event.TimedOut? || event.Interrupted? then [Message(Decimal(k + 2), Kind.Cancel, METHODS[k], NOTHING)]
    else []
  }

  // ---------------------------------------------------------------- greetings

  predicate IsGreeting(event: Event) {
    event.Arrives? && event.message.kind == Request && event.message.verb == "Handshake"
  }

  predicate IsWelcome(event: Event) {
    && event.Arrives? && event.message.kind == Response && event.message.verb == "Handshake" && event.message.id == Decimal(1)
    && event.message.payload.responseCode == Some("Success") && event.message.payload.protocolVersion == Some("2.0.0")
  }

  predicate AllGreetings(events: seq<Event>, n: nat)
    requires n <= |events|
  {
    forall i | 0 <= i < n :: IsGreeting(events[i]) || IsWelcome(events[i])
  }

  predicate Greets(events: seq<Event>, n: nat)
    requires n <= |events|
  {
    exists i | 0 <= i < n :: IsGreeting(events[i])
  }

  predicate Welcomes(events: seq<Event>, n: nat)
    requires n <= |events|
  {
    exists i | 0 <= i < n :: IsWelcome(events[i])
  }

  predicate BothDone(events: seq<Event>, n: nat)
    requires n <= |events|
  {
    Greets(events, n) && Welcomes(events, n)
  }

  /** The handshakes of both sides are done with event `n - 1`, and not before. */
  predicate Greeted(events: seq<Event>, n: nat) {
    0 < n <= |events| && AllGreetings(events, n) && BothDone(events, n) && !BothDone(events, n - 1)
  }

  /** The event in its place is neither a greeting nor a welcome, and a handshake is missing. */
  predicate GreetingEnds(events: seq<Event>, at: nat, outcome: Outcome) {
    && at <= |events| && AllGreetings(events, at) && !BothDone(events, at)
    && var event := EventAt(events, at);
       outcome.Failed? && if event.Arrives? then outcome.error == Protocol && !IsGreeting(event) && !IsWelcome(event)
                          else Breaks(event, outcome.error)
  }

  /** Behind the last event there is silence. */
  function EventAt(events: seq<Event>, at: nat): Event {
    if at < |events| then events[at] else TimedOut
  }

  // ---------------------------------------------------------------- a talk and its cuts

  predicate AllNoise(k: nat, events: seq<Event>, from: nat, until: nat)
    requires k < |METHODS| && from <= until <= |events|
  {
    forall i | from <= i < until :: Noise(k, events[i])
  }

  /** Noise, and then the answer that the next request follows. */
  predicate Chapter(k: nat, events: seq<Event>, from: nat, until: nat)
    requires k < |METHODS|
  {
    from < until <= |events| && AllNoise(k, events, from, until - 1) && LeadsOn(k, events[until - 1])
  }

  /** The first cut is behind the handshakes, every other one behind an answer that the next request follows. */
  predicate Talk(events: seq<Event>, cuts: seq<nat>) {
    && 1 <= |cuts| <= |METHODS|
    && if |cuts| == 1 then Greeted(events, cuts[0])
       else Talk(events, cuts[..|cuts| - 1]) && Chapter(|cuts| - 2, events, cuts[|cuts| - 2], cuts[|cuts| - 1])
  }

  lemma {:induction false} CutsAreInside(events: seq<Event>, cuts: seq<nat>)
    requires Talk(events, cuts)
    ensures cuts[|cuts| - 1] <= |events|
  {
  }

  /** What has been sent when the last cut is reached, the request of that cut included. */
  function Said(events: seq<Event>, cuts: seq<nat>): seq<Message>
    requires Talk(events, cuts)
  {
    var n := |cuts|;
    if n == 1 then Replies(events, 0, cuts[0]) + [Asked(2, METHODS[0])]
    else Said(events, cuts[..n - 1]) + (Replies(events, cuts[n - 2], cuts[n - 1]) + [Asked(n + 1, METHODS[n - 1])])
  }

  /** A talk to its last cut, then noise, then an event that ends the session. */
  ghost predicate TalkEnds(events: seq<Event>, cuts: seq<nat>, at: nat, outcome: Outcome) {
    && Talk(events, cuts) && cuts[|cuts| - 1] <= at <= |events| && AllNoise(|cuts| - 1, events, cuts[|cuts| - 1], at)
    && Ending(|cuts| - 1, EventAt(events, at), outcome)
  }

  ghost predicate ComesTo(events: seq<Event>, outcome: Outcome) {
    || (exists at :: GreetingEnds(events, at, outcome))
    || exists cuts, at :: TalkEnds(events, cuts, at, outcome)
  }

  // ---------------------------------------------------------------- single events

  function StepAt(k: nat): Step
    requires k < |METHODS|
  {
    match k case 0 => Monitor case 1 => Initialize case 2 => Claims case 3 => LogLevel case _ => Credentials
  }

  lemma NoiseReacts(k: nat, event: Event)
    requires k < |METHODS| && Noise(k, event)
    ensures React(Asking(StepAt(k)), event) == Reaction(Asking(StepAt(k)), Reply(event))
  {
  }

  lemma LeadingReacts(k: nat, event: Event)
    requires k < |METHODS| && LeadsOn(k, event)
    ensures k < CREDENTIALS && Reply(event) == []
    ensures React(Asking(StepAt(k)), event) == Reaction(Asking(StepAt(k + 1)), [Asked(k + 3, METHODS[k + 1])])
  {
    hide Decimal;
  }

  lemma SecretIsSpelled(secret: Secret)
    ensures forall text :: Spells(secret, text) <==> SecretText(secret) == Some(text)
  {
  }

  lemma EndingReacts(k: nat, event: Event, outcome: Outcome)
    requires k < |METHODS| && Ending(k, event, outcome)
    ensures var r := React(Asking(StepAt(k)), event);
            r.host.Finished? && r.host.outcome == outcome && r.sends == Farewell(k, event, outcome)
  {
    hide Decimal;
    if IsAnswer(k, event) && k == CREDENTIALS {
      CredentialsReact(event, outcome);
    }
  }

  lemma CredentialsReact(event: Event, outcome: Outcome)
    requires IsAnswer(CREDENTIALS, event) && Ending(CREDENTIALS, event, outcome)
    ensures var r := After(Credentials, event.message);
            r.host.Finished? && r.host.outcome == outcome && r.sends == Farewell(CREDENTIALS, event, outcome)
  {
    hide Decimal;
    var p := event.message.payload;
    SecretIsSpelled(p.username);
    SecretIsSpelled(p.password);
    if SecretText(p.username).Some? && SecretText(p.password).Some? {
      assert HasCredential(p, SecretText(p.username).value, SecretText(p.password).value) <==>
             SecretText(p.username).value != "" || SecretText(p.password).value != "";
    }
  }

  /** Every event is noise, leads on, or ends the session. */
  lemma EveryEventCounts(k: nat, event: Event) returns (outcome: Outcome)
    requires k < |METHODS| && !Noise(k, event) && !LeadsOn(k, event)
    ensures Ending(k, event, outcome)
  {
    hide Decimal;
    if !event.Arrives? {
      outcome := Failed(EventError(event));
    } else if event.message.kind == Kind.Cancel && event.message.id == Decimal(k + 2) {
      outcome := Failed(UserCancel);
    } else if !IsAnswer(k, event) || Unfit(k, event.message.payload) {
      outcome := Failed(Protocol);
    } else {
      outcome := FitAnswer(k, event);
    }
  }

  lemma FitAnswer(k: nat, event: Event) returns (outcome: Outcome)
    requires k < |METHODS| && IsAnswer(k, event) && !LeadsOn(k, event) && !Unfit(k, event.message.payload)
    ensures Ending(k, event, outcome)
  {
    var p := event.message.payload;
    if k < CREDENTIALS || p.responseCode == Some("Error") {
      outcome := NotApplicable;
    } else if p.responseCode == Some("NotFound") {
      outcome := UserCancelled;
    } else {
      var u, v :| HasCredential(p, u, v);
      outcome := if SupportsBasic(p.types) then Credential(u, v) else NotApplicable;
    }
  }

  // ---------------------------------------------------------------- stretches of events

  /** One event of a play, seen from its place in the stream. */
  lemma PlaysOn(host: Host, events: seq<Event>, at: nat)
    requires !host.Finished? && at < |events|
    ensures Play(host, events[at..]) == Resume(React(host, events[at]), events[at + 1..])
  {
    hide React, Play;
    PlayResumes(host, events[at..]);
    assert events[at..][1..] == events[at + 1..];
  }

  /** Noise changes nothing but that its requests are answered, one reply each, in order. */
  lemma {:induction false} NoisePlays(k: nat, events: seq<Event>, from: nat, until: nat)
    requires k < |METHODS| && from <= until <= |events| && AllNoise(k, events, from, until)
    ensures Play(Asking(StepAt(k)), events[from..]) ==
              Behind(Replies(events, from, until), Play(Asking(StepAt(k)), events[until..]))
    decreases until
  {
    hide React, Play, Noise, Reply, StepAt;
    var host := Asking(StepAt(k));
    if until > from {
      NoisePlays(k, events, from, until - 1);
      NoiseReacts(k, events[until - 1]);
      PlaysOn(host, events, until - 1);
      BehindTwice(Replies(events, from, until - 1), Reply(events[until - 1]), Play(host, events[until..]));
    }
  }

  /** Progress on the pending request, wherever it comes in front of the answer, changes neither outcome nor messages. */
  lemma {:induction false} ProgressChangesNothing(k: nat, before: seq<Event>, progress: Message, after: seq<Event>)
    requires k < |METHODS| && AllNoise(k, before, 0, |before|) && progress.kind == Progress && IsFor(k, progress)
    ensures Play(Asking(StepAt(k)), before + [Arrives(progress)] + after) == Play(Asking(StepAt(k)), before + after)
  {
    hide Play, StepAt, Noise;
    var n, with, without := |before|, before + [Arrives(progress)] + after, before + after;
    assert Noise(k, with[n]) by { ProgressIsNoise(k, progress); }
    assert forall i | 0 <= i < n :: with[i] == before[i] == without[i];
    NoisePlays(k, with, 0, n + 1);
    NoisePlays(k, without, 0, n);
    SameReplies(with, without, n);
    assert with[n + 1..] == after == without[n..] && with[0..] == with && without[0..] == without;
    assert Replies(with, 0, n + 1) == Replies(with, 0, n) + [] == Replies(with, 0, n);
  }

  lemma ProgressIsNoise(k: nat, progress: Message)
    requires k < |METHODS| && progress.kind == Progress && IsFor(k, progress)
    ensures Noise(k, Arrives(progress))
  {
  }

  lemma {:induction false} SameReplies(a: seq<Event>, b: seq<Event>, n: nat)
    requires n <= |a| && n <= |b| && forall i | 0 <= i < n :: a[i] == b[i]
    ensures Replies(a, 0, n) == Replies(b, 0, n)
  {
    hide Reply;
    if n > 0 { SameReplies(a, b, n - 1); }
  }

  lemma {:induction false} ChapterPlays(k: nat, events: seq<Event>, from: nat, until: nat)
    requires k < |METHODS| && Chapter(k, events, from, until)
    ensures k < CREDENTIALS
    ensures Play(Asking(StepAt(k)), events[from..]) ==
              Behind(Replies(events, from, until) + [Asked(k + 3, METHODS[k + 1])], Play(Asking(StepAt(k + 1)), events[until..]))
  {
    hide React, Play, AllNoise, LeadsOn, StepAt, Reply;
    NoisePlays(k, events, from, until - 1);
    LeadingReacts(k, events[until - 1]);
    PlaysOn(Asking(StepAt(k)), events, until - 1);
    assert Replies(events, from, until) == Replies(events, from, until - 1) + [] == Replies(events, from, until - 1);
    BehindTwice(Replies(events, from, until), [Asked(k + 3, METHODS[k + 1])], Play(Asking(StepAt(k + 1)), events[until..]));
  }

  lemma {:induction false} GreetingPlays(events: seq<Event>, n: nat)
    requires n <= |events| && AllGreetings(events, n) && !BothDone(events, n)
    ensures Play(Handshaking(false, false), events) ==
              Behind(Replies(events, 0, n), Play(Handshaking(Welcomes(events, n), Greets(events, n)), events[n..]))
  {
    hide Play, React, IsGreeting, IsWelcome, Reply;
    if n == 0 {
      assert events[0..] == events;
    } else {
      GreetingPlays(events, n - 1);
      var host := Handshaking(Welcomes(events, n - 1), Greets(events, n - 1));
      PlaysOn(host, events, n - 1);
      GreetingReacts(events, n);
      BehindTwice(Replies(events, 0, n - 1), Reply(events[n - 1]),
          Play(Handshaking(Welcomes(events, n), Greets(events, n)), events[n..]));
    }
  }

  lemma GreetingReacts(events: seq<Event>, n: nat)
    requires 0 < n <= |events| && AllGreetings(events, n) && !BothDone(events, n - 1)
    ensures React(Handshaking(Welcomes(events, n - 1), Greets(events, n - 1)), events[n - 1]) ==
              if BothDone(events, n) then Reaction(Asking(Monitor), Reply(events[n - 1]) + [Asked(2, METHODS[0])])
              else Reaction(Handshaking(Welcomes(events, n), Greets(events, n)), Reply(events[n - 1]))
  {
    hide Decimal;
    assert Welcomes(events, n) == (Welcomes(events, n - 1) || IsWelcome(events[n - 1]));
    assert Greets(events, n) == (Greets(events, n - 1) || IsGreeting(events[n - 1]));
    assert IsGreeting(events[n - 1]) || IsWelcome(events[n - 1]);
  }

  lemma {:induction false} GreetedPlays(events: seq<Event>, n: nat)
    requires Greeted(events, n)
    ensures Play(Handshaking(false, false), events) ==
              Behind(Replies(events, 0, n) + [Asked(2, METHODS[0])], Play(Asking(Monitor), events[n..]))
  {
    hide Play, React, BothDone, Welcomes, Greets, Reply;
    GreetingPlays(events, n - 1);
    GreetingReacts(events, n);
    PlaysOn(Handshaking(Welcomes(events, n - 1), Greets(events, n - 1)), events, n - 1);
    BehindTwice(Replies(events, 0, n - 1), Reply(events[n - 1]) + [Asked(2, METHODS[0])], Play(Asking(Monitor), events[n..]));
    assert Replies(events, 0, n - 1) + (Reply(events[n - 1]) + [Asked(2, METHODS[0])]) ==
           Replies(events, 0, n) + [Asked(2, METHODS[0])];
  }

  lemma {:induction false} TalkPlays(events: seq<Event>, cuts: seq<nat>)
    requires Talk(events, cuts)
    ensures cuts[|cuts| - 1] <= |events|
    ensures Play(Handshaking(false, false), events) ==
              Behind(Said(events, cuts), Play(Asking(StepAt(|cuts| - 1)), events[cuts[|cuts| - 1]..]))
    decreases |cuts|
  {
    hide Play, React, Greeted, AllNoise, LeadsOn, Talk, Said, Replies, Behind;
    CutsAreInside(events, cuts);
    TalkUnfolds(events, cuts);
    var n := |cuts|;
    if n == 1 {
      GreetedPlays(events, cuts[0]);
    } else {
      var from, until, next := cuts[n - 2], cuts[n - 1], Asked(n + 1, METHODS[n - 1]);
      var shorter := cuts[..n - 1];
      TalkPlays(events, shorter);
      ChapterPlays(n - 2, events, from, until);
      BehindTwice(Said(events, shorter), Replies(events, from, until) + [next], Play(Asking(StepAt(n - 1)), events[until..]));
    }
  }

  lemma TalkUnfolds(events: seq<Event>, cuts: seq<nat>)
    requires Talk(events, cuts)
    ensures 1 <= |cuts| <= |METHODS| && cuts[|cuts| - 1] <= |events|
    ensures |cuts| == 1 ==> Greeted(events, cuts[0]) && Said(events, cuts) == Replies(events, 0, cuts[0]) + [Asked(2, METHODS[0])]
    ensures |cuts| > 1 ==> var n, shorter := |cuts|, cuts[..|cuts| - 1];
                           && Talk(events, shorter) && Chapter(n - 2, events, cuts[n - 2], cuts[n - 1])
                           && Said(events, cuts) ==
                              Said(events, shorter) + (Replies(events, cuts[n - 2], cuts[n - 1]) + [Asked(n + 1, METHODS[n - 1])])
  {
    hide Greeted, AllNoise, Replies, LeadsOn;
    CutsAreInside(events, cuts);
  }

  // ---------------------------------------------------------------- outcomes

  /** The event that ends a session, as the last one of a play. */
  lemma LastEvent(host: Host, events: seq<Event>, at: nat)
    requires at <= |events| && !host.Finished? && React(host, EventAt(events, at)).host.Finished?
    ensures var reaction, played := React(host, EventAt(events, at)), Play(host, events[at..]);
            played.host == reaction.host && played.sends == reaction.sends
  {
    hide React;
    if at < |events| {
      assert events[at..] != [] && events[at..][0] == events[at];
      var reaction := React(host, events[at]);
      FinishedPlays(reaction.host.outcome, reaction.host.closed, events[at..][1..]);
      assert reaction.sends + [] == reaction.sends;
    }
  }

  /**
   * Main result: a session that is told so has this outcome and has sent exactly this: the replies, the requests in their
   * order, and the farewell.
   */
  lemma {:induction false} ToldIsPlayed(events: seq<Event>, cuts: seq<nat>, at: nat, outcome: Outcome)
    requires TalkEnds(events, cuts, at, outcome)
    ensures SessionOutcome(events) == outcome
    ensures Play(Handshaking(false, false), events).sends ==
              Said(events, cuts) + Replies(events, cuts[|cuts| - 1], at) + Farewell(|cuts| - 1, EventAt(events, at), outcome)
  {
    hide Play, React, Ending, AllNoise, Farewell, Talk, StepAt, Said;
    TalkUnfolds(events, cuts);
    TalkPlays(events, cuts);
    var k, from := |cuts| - 1, cuts[|cuts| - 1];
    NoisePlays(k, events, from, at);
    EndingReacts(k, EventAt(events, at), outcome);
    LastEvent(Asking(StepAt(k)), events, at);
    BehindTwice(Said(events, cuts), Replies(events, from, at), Play(Asking(StepAt(k)), events[at..]));
    PlayFinishes(Handshaking(false, false), events);
  }

  lemma {:induction false} GreetingEndsPlay(events: seq<Event>, at: nat, outcome: Outcome)
    requires GreetingEnds(events, at, outcome)
    ensures SessionOutcome(events) == outcome
  {
    hide Play, AllGreetings, Replies;
    var host := Handshaking(Welcomes(events, at), Greets(events, at));
    GreetingPlays(events, at);
    FarewellReacts(host.received, host.answered, EventAt(events, at), outcome);
    LastEvent(host, events, at);
  }

  lemma FarewellReacts(received: bool, answered: bool, event: Event, outcome: Outcome)
    requires outcome.Failed?
    requires if event.Arrives? then outcome.error == Protocol && !IsGreeting(event) && !IsWelcome(event)
             else Breaks(event, outcome.error)
    ensures React(Handshaking(received, answered), event).host == Finished(outcome, false)
  {
    hide Decimal;
  }

  // ---------------------------------------------------------------- every session is told

  lemma {:induction false} NoiseEnds(k: nat, events: seq<Event>, from: nat) returns (at: nat)
    requires k < |METHODS| && from <= |events|
    ensures from <= at <= |events| && AllNoise(k, events, from, at) && (at < |events| ==> !Noise(k, events[at]))
    decreases |events| - from
  {
    hide Noise;
    if from < |events| && Noise(k, events[from]) {
      at := NoiseEnds(k, events, from + 1);
    } else {
      at := from;
    }
  }

  lemma {:induction false} TalkIsTold(events: seq<Event>, cuts: seq<nat>)
    requires Talk(events, cuts)
    ensures exists outcome :: ComesTo(events, outcome)
    decreases |METHODS| - |cuts|
  {
    hide Noise, Ending, LeadsOn, Greeted;
    CutsAreInside(events, cuts);
    var k := |cuts| - 1;
    var at := NoiseEnds(k, events, cuts[k]);
    var event := EventAt(events, at);
    assert !Noise(k, event) by { SilenceCounts(k); }
    if LeadsOn(k, event) {
      assert at < |events| && k < CREDENTIALS by { SilenceCounts(k); LeadingReacts(k, event); }
      var longer := cuts + [at + 1];
      assert longer[..|longer| - 1] == cuts;
      assert Chapter(k, events, cuts[k], at + 1);
      TalkIsTold(events, longer);
    } else {
      var outcome := EveryEventCounts(k, event);
      assert TalkEnds(events, cuts, at, outcome);
      assert ComesTo(events, outcome);
    }
  }

  lemma SilenceCounts(k: nat)
    requires k < |METHODS|
    ensures !Noise(k, TimedOut) && !LeadsOn(k, TimedOut)
  {
  }

  lemma {:induction false} GreetingIsTold(events: seq<Event>, n: nat)
    requires n <= |events| && AllGreetings(events, n) && !BothDone(events, n)
    ensures exists outcome :: ComesTo(events, outcome)
    decreases |events| - n
  {
    hide BothDone, IsGreeting, IsWelcome;
    if n < |events| && (IsGreeting(events[n]) || IsWelcome(events[n])) {
      if BothDone(events, n + 1) {
        assert Greeted(events, n + 1);
        TalkIsTold(events, [n + 1]);
      } else {
        GreetingIsTold(events, n + 1);
      }
    } else {
      var event := EventAt(events, n);
      var outcome := Failed(if event.Arrives? then Protocol else EventError(event));
      assert GreetingEnds(events, n, outcome);
      assert ComesTo(events, outcome);
    }
  }

  /**
   * Main result: the session has an outcome exactly if its events come to it, that is, if the handshakes break off or a
   * talk of answers in their order, with nothing but noise between them, ends in an event of that outcome.
   */
  lemma OutcomeExactly(events: seq<Event>, outcome: Outcome)
    ensures SessionOutcome(events) == outcome <==> ComesTo(events, outcome)
  {
    hide Talk, GreetingEnds, TalkEnds, SessionOutcome, AllGreetings, BothDone;
    assert AllGreetings(events, 0) && !BothDone(events, 0) by { NothingYet(events); }
    GreetingIsTold(events, 0);
    var told :| ComesTo(events, told);
    ToldIsOutcome(events, told);
    if ComesTo(events, outcome) { ToldIsOutcome(events, outcome); }
  }

  lemma NothingYet(events: seq<Event>)
    ensures AllGreetings(events, 0) && !BothDone(events, 0)
  {
  }

  lemma ToldIsOutcome(events: seq<Event>, outcome: Outcome)
    requires ComesTo(events, outcome)
    ensures SessionOutcome(events) == outcome
  {
    hide GreetingEnds, TalkEnds, SessionOutcome, Talk;
    if at :| GreetingEnds(events, at, outcome) {
      GreetingEndsPlay(events, at, outcome);
    } else {
      var cuts, at :| TalkEnds(events, cuts, at, outcome);
      ToldIsPlayed(events, cuts, at, outcome);
    }
  }
}
