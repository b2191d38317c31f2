/**
 * The session together with the fixture provider (tools/nuget-plugin-dv-fixture/src/main.rs), each a state machine, over
 * two first-in-first-out pipes, in every interleaving.
 */
module CredentialProtocol {
  import opened Wrappers
  import opened RuntimeVersions
  import opened CredentialSession

  const PLUGIN_HANDSHAKE_ID := "10000000-0000-0000-0000-000000000001"
  const PLUGIN_LOG_ID := "10000000-0000-0000-0000-000000000002"

  /** What the fixture says first. */
  const HELLO := Message(PLUGIN_HANDSHAKE_ID, Request, "Handshake", NEGOTIATED.(responseCode := None))

  // ---------------------------------------------------------------- the provider

  datatype Mode = Succeeds | FindsNothing | Hangs | IgnoresCancel

  /** How the fixture is set up: its mode, the line it logs, if any, and what it hands out. */
  datatype Config = Config(mode: Mode, log: Option<string>, username: string, password: string)

  /** How the child ended: by itself, well or badly, or by a kill. */
  datatype Exit = Clean | Faulty | Killed

  /** `Listening` reads the next request; `Logging` waits for its log line to be acknowledged first. */
  datatype Plugin = Starting | Listening | Logging(request: Message) | Exited(exit: Exit)

  datatype PluginMove = PluginMove(plugin: Plugin, sends: seq<Message>)

  function AnswerPayload(config: Config, verb: string): Payload {
    if verb == "Handshake" then NEGOTIATED
    else if verb == "Initialize" || verb == "MonitorNuGetProcessExit" || verb == "SetLogLevel" then SUCCESS
    else if verb == "GetOperationClaims" then NO_PAYLOAD.(claims := Some(["Authentication"]))
    else if verb == "GetAuthenticationCredentials" then
      if config.mode.FindsNothing? then NO_PAYLOAD.(responseCode := Some("NotFound"), types := OneOf([]))
      else NO_PAYLOAD.(responseCode := Some("Success"), username := Text(config.username),
          password := Text(config.password), types := OneOf(["Basic"]))
    else NO_PAYLOAD.(responseCode := Some("Error"), log := Some("unsupported fixture method"))
  }

  /** Answers a request that is not held back. */
  function Serve(config: Config, message: Message): PluginMove {
    if message.verb == "Close" then PluginMove(Exited(Clean), [])
    else PluginMove(Listening, [Answer(message, AnswerPayload(config, message.verb))])
  }

  function Listen(config: Config, message: Message): PluginMove {
    if message.kind == Cancel then
      if config.mode.IgnoresCancel? then PluginMove(Listening, [])
      else PluginMove(Exited(Clean), [Message(message.id, Cancel, message.verb, NO_PAYLOAD)])
    else if message.kind != Request then PluginMove(Listening, [])
    else if message.verb == "GetAuthenticationCredentials" && (config.mode.Hangs? || config.mode.IgnoresCancel?)
        then PluginMove(Listening, [])
    else if message.verb == "GetAuthenticationCredentials" && config.log.Some? then
      PluginMove(Logging(message), [Message(PLUGIN_LOG_ID, Request, "Log", NO_PAYLOAD.(log := config.log))])
    else Serve(config, message)
  }

  function Acknowledge(config: Config, request: Message, message: Message): PluginMove {
    if message.id != PLUGIN_LOG_ID || message.kind != Response || message.verb != "Log" then PluginMove(Exited(Faulty), [])
    else Serve(config, request)
  }

  function PluginReads(config: Config, plugin: Plugin, message: Message): PluginMove
    requires plugin.Listening? || plugin.Logging?
  {
    match plugin
    case Listening => Listen(config, message)
    case Logging(request) => Acknowledge(config, request, message)
  }

  // ---------------------------------------------------------------- the two together

  /**
   * The host talks; gives the child a grace to go, after a close or, if `stopping`, after a cancellation; has killed it
   * and waits for its end; or is done, having waited for the child or only dropped it, which kills it as well.
   */
  datatype Stage = Talking(host: Host) | Grace(outcome: Outcome, stopping: bool) | Reaping(outcome: Outcome)
      | Done(outcome: Outcome, waited: bool)

  /** `killed` says that a kill has been sent; the child need not have noticed yet. */
  datatype State = State(stage: Stage, plugin: Plugin, toPlugin: seq<Message>, toHost: seq<Message>,
                         inputShut: bool, disturbed: bool, killed: bool)

  function Start(): State {
    State(Talking(Handshaking(false, false)), Starting, [Ask(1, "Handshake")], [], false, false, false)
  }

  /** The host takes an event: it goes on, closes the session in order, stops the child, or drops it. */
  function HostTakes(s: State, event: Event): State
    requires s.stage.Talking?
  {
    var reaction := React(s.stage.host, event);
    var told := s.(toPlugin := s.toPlugin + reaction.sends);
    match reaction.host
    case Finished(outcome, closed) =>
      if closed then told.(stage := Grace(outcome, false), inputShut := true)
      else if event.TimedOut? || event.Interrupted? then told.(stage := Grace(outcome, true))
      else told.(stage := Done(outcome, false), inputShut := true, killed := true)
    case host => told.(stage := Talking(host))
  }

  ghost predicate HostReads(s: State, s': State) {
    s.stage.Talking? && s.toHost != [] && s' == HostTakes(s.(toHost := s.toHost[1..]), Arrives(s.toHost[0]))
  }

  ghost predicate HostSeesEnd(s: State, s': State) {
    s.stage.Talking? && s.toHost == [] && s.plugin.Exited? && s' == HostTakes(s, Ended)
  }

  /** The timeout runs out, or the user cancels: possible at any time. */
  ghost predicate Disturb(s: State, s': State) {
    s.stage.Talking? && (s' == HostTakes(s, TimedOut).(disturbed := true) || s' == HostTakes(s, Interrupted).(disturbed := true))
  }

  ghost predicate PluginSteps(config: Config, s: State, s': State) {
    match s.plugin
    case Starting =>
      s' == s.(plugin := Listening,
               toHost := s.toHost + [HELLO])
    case Exited(_) => false
    case _ =>
      if s.toPlugin != [] then
        var move := PluginReads(config, s.plugin, s.toPlugin[0]);
        s' == s.(plugin := move.plugin, toPlugin := s.toPlugin[1..], toHost := s.toHost + move.sends)
      else s.inputShut && s' == s.(plugin := Exited(if s.plugin.Listening? then Clean else Faulty))
  }

  /** The clock of the grace runs out, or a second cancellation forces the stop: the child is killed. */
  ghost predicate GraceOver(s: State, s': State) {
    s.stage.Grace? && s' == s.(stage := Reaping(s.stage.outcome), killed := true)
  }

  /** The host, waiting with or without a clock, sees that the child has exited. */
  ghost predicate ExitSeen(s: State, s': State) {
    (s.stage.Grace? || s.stage.Reaping?) && s.plugin.Exited? && s' == s.(stage := Done(s.stage.outcome, true))
  }

  /** A kill that was sent takes effect. */
  ghost predicate PluginDies(s: State, s': State) {
    s.killed && !s.plugin.Exited? && s' == s.(plugin := Exited(Killed))
  }

  /** A step on the way to the child's end. */
  ghost predicate Leaves(s: State, s': State) {
    GraceOver(s, s') || ExitSeen(s, s') || PluginDies(s, s')
  }

  ghost predicate Next(config: Config, s: State, s': State) {
    HostReads(s, s') || HostSeesEnd(s, s') || Disturb(s, s') || PluginSteps(config, s, s') || Leaves(s, s')
  }

  ghost predicate Run(config: Config, run: seq<State>) {
    run != [] && run[0] == Start() && forall i | 0 <= i < |run| - 1 :: Next(config, run[i], run[i + 1])
  }

  // ---------------------------------------------------------------- the conversation

  predicate Answers(config: Config) {
    config.mode.Succeeds? || config.mode.FindsNothing?
  }

  predicate Logs(config: Config) {
    Answers(config) && config.log.Some?
  }

  function StepAt(k: nat): Step
    requires 2 <= k <= 6
  {
    if k == 2 then Monitor else if k == 3 then Initialize else if k == 4 then Claims else if k == 5 then LogLevel else Credentials
  }

  function LogLine(config: Config): Message {
    Message(PLUGIN_LOG_ID, Request, "Log", NO_PAYLOAD.(log := config.log))
  }

  function CredentialAnswer(config: Config): Message {
    Answer(Ask(6, MethodOf(Credentials)), AnswerPayload(config, MethodOf(Credentials)))
  }

  /** How many messages the plugin sends in all. */
  function PluginTotal(config: Config): nat {
    if !Answers(config) then 6 else if Logs(config) then 8 else 7
  }

  /** The plugin's messages, in their order. */
  function PluginMessage(config: Config, k: nat): Message
    requires k < PluginTotal(config)
  {
    if k == 0 then HELLO
    else if k == 1 then Answer(Ask(1, "Handshake"), NEGOTIATED)
    else if k <= 5 then Answer(Ask(k, MethodOf(StepAt(k))), AnswerPayload(config, MethodOf(StepAt(k))))
    else if k == 6 && Logs(config) then LogLine(config)
    else CredentialAnswer(config)
  }

  /** The host's messages while it talks, in their order: after `h` reads it has sent `h + 1`. */
  function HostMessage(config: Config, k: nat): Message
    requires k <= 7
  {
    if k == 0 then Ask(1, "Handshake")
    else if k == 1 then Answer(HELLO, NEGOTIATED)
    else if k <= 6 then Ask(k, MethodOf(StepAt(k)))
    else Answer(LogLine(config), SUCCESS)
  }

  /** The host after `h` reads. */
  function HostAt(h: nat): Host {
    if h == 0 then Handshaking(false, false)
    else if h == 1 then Handshaking(false, true)
    else if h <= 6 then Asking(StepAt(h))
    else Asking(Credentials)
  }

  /** The plugin after its start and `q - 1` reads. */
  function PluginAt(config: Config, q: nat): Plugin {
    if q == 0 then Starting
    else if q == 8 && Logs(config) then Logging(Ask(6, MethodOf(Credentials)))
    else Listening
  }

  /** How many messages the plugin has sent then: the answer to its own greeting brings none. */
  function PluginSent(config: Config, q: nat): nat {
    if q <= 2 then q else if q - 1 <= PluginTotal(config) then q - 1 else PluginTotal(config)
  }

  function Reads(q: nat): nat {
    if q == 0 then 0 else q - 1
  }

  /** Messages `from` to `to` of one side. */
  function HostQueue(config: Config, from: nat, until: nat): seq<Message>
    requires from <= until <= 8
    decreases until - from
  {
    if from == until then [] else [HostMessage(config, from)] + HostQueue(config, from + 1, until)
  }

  function PluginQueue(config: Config, from: nat, until: nat): seq<Message>
    requires from <= until <= PluginTotal(config)
    decreases until - from
  {
    if from == until then [] else [PluginMessage(config, from)] + PluginQueue(config, from + 1, until)
  }

  /** The state is the one after `h` reads of the host and `q` moves of the plugin, undisturbed. */
  predicate Joint(config: Config, s: State, h: nat, q: nat) {
    && (h == 7 ==> LogFits(config)) && h < PluginTotal(config) + (if Answers(config) then 0 else 1)
        && h <= PluginSent(config, q) && Reads(q) <= h + 1
    && s == State(Talking(HostAt(h)), PluginAt(config, q), HostQueue(config, Reads(q), h + 1),
                  PluginQueue(config, h, PluginSent(config, q)), false, false, false)
  }

  // ---------------------------------------------------------------- one step of either side

  lemma {:induction false} HostQueueGrows(config: Config, from: nat, until: nat)
    requires from <= until <= 7
    ensures HostQueue(config, from, until + 1) == HostQueue(config, from, until) + [HostMessage(config, until)]
    decreases until - from
  {
    hide HostMessage;
    if from < until { HostQueueGrows(config, from + 1, until); }
  }

  lemma {:induction false} PluginQueueGrows(config: Config, from: nat, until: nat)
    requires from <= until < PluginTotal(config)
    ensures PluginQueue(config, from, until + 1) == PluginQueue(config, from, until) + [PluginMessage(config, until)]
    decreases until - from
  {
    hide PluginMessage;
    if from < until { PluginQueueGrows(config, from + 1, until); }
  }

  predicate LogFits(config: Config) {
    config.log.Some? ==> |config.log.value| <= MAX_LOG_MESSAGE_BYTES
  }

  /** The plugin's setup gives the host what it needs. */
  predicate Sound(config: Config) {
    && LogFits(config)
    && (config.mode.Succeeds? ==> config.username != "" || config.password != "")
  }

  function Expected(config: Config): Outcome {
    if config.mode.Succeeds? then Credential(config.username, config.password) else UserCancelled
  }

  lemma HandshakeAdvances(config: Config, h: nat)
    requires h <= 1
    ensures React(HostAt(h), Arrives(PluginMessage(config, h))) == Reaction(HostAt(h + 1), [HostMessage(config, h + 1)])
  {
  }

  lemma VerbsAreDistinct()
    ensures MethodOf(Monitor) == "MonitorNuGetProcessExit" && MethodOf(Initialize) == "Initialize"
    ensures MethodOf(Claims) == "GetOperationClaims" && MethodOf(LogLevel) == "SetLogLevel"
    ensures MethodOf(Claims) != "Initialize" && MethodOf(Claims) != "MonitorNuGetProcessExit" && MethodOf(Claims) != "SetLogLevel"
    ensures forall step: Step :: MethodOf(step) != "Handshake" && MethodOf(step) != "Close" && MethodOf(step) != "Log"
    ensures forall step: Step :: step != Credentials ==> MethodOf(step) != MethodOf(Credentials)
  {
    assert |"MonitorNuGetProcessExit"| == 23 && |"Initialize"| == 10 && |"GetOperationClaims"| == 18 && |"SetLogLevel"| == 11;
    assert |"GetAuthenticationCredentials"| == 28 && |"Handshake"| == 9 && |"Close"| == 5 && |"Log"| == 3;
    assert forall step: Step :: |MethodOf(step)| >= 10;
  }

  /** The answers to the first four requests let the host go on. */
  lemma RequestAdvances(config: Config, h: nat)
    requires 2 <= h <= 5
    ensures React(HostAt(h), Arrives(PluginMessage(config, h))) == Reaction(HostAt(h + 1), [HostMessage(config, h + 1)])
  {
    hide React, Take, After, AnswerPayload, MethodOf;
    var step, message := StepAt(h), PluginMessage(config, h);
    AskingReacts(step, Arrives(message));
    OwnAnswerResponds(IdOf(step), MethodOf(step), message.payload);
    StepAdvances(config, step);
  }

  lemma OwnAnswerResponds(id: nat, verb: string, payload: Payload)
    ensures Take(Decimal(id), verb, Answer(Ask(id, verb), payload)) == Responds
  {
  }

  /** What the fixture answers to one of the first four requests is what the next one needs. */
  lemma StepAdvances(config: Config, step: Step)
    requires step != Credentials
    ensures After(step, Answer(Ask(IdOf(step), MethodOf(step)), AnswerPayload(config, MethodOf(step)))) ==
              Go(StepAt(IdOf(step) + 1))
  {
    VerbsAreDistinct();
    assert "Authentication" in ["Authentication"];
  }

  lemma LogAdvances(config: Config)
    requires Logs(config)
    ensures React(HostAt(6), Arrives(PluginMessage(config, 6))) ==
            if |config.log.value| <= MAX_LOG_MESSAGE_BYTES then Reaction(HostAt(7), [HostMessage(config, 7)]) else Fail(Protocol)
  {
    AskingReacts(Credentials, Arrives(LogLine(config)));
  }

  lemma AnswerEnds(config: Config)
    requires Answers(config)
    ensures React(Asking(Credentials), Arrives(CredentialAnswer(config))) ==
            if config.mode.Succeeds? && config.username == "" && config.password == "" then Fail(Protocol)
            else Close(Credentials, Expected(config))
  {
    VerbsAreDistinct();
    AskingReacts(Credentials, Arrives(CredentialAnswer(config)));
    assert |"Success"| == 7 && |"NotFound"| == 8 && |"Error"| == 5;
    BasicIsAllowed();
  }

  lemma BasicIsAllowed()
    ensures AllowsBasic(OneOf(["Basic"]))
  {
    assert ["Basic"][0] == "Basic";
  }

  /** The plugin's `q`-th move takes it on, and it sends what is due. */
  predicate Advances(config: Config, q: nat)
    requires 1 <= q <= 8 && (q == 8 ==> Logs(config))
  {
    var move := PluginReads(config, PluginAt(config, q), HostMessage(config, q - 1));
    && move.plugin == PluginAt(config, q + 1)
    && PluginSent(config, q + 1) == PluginSent(config, q) + |move.sends| <= PluginTotal(config)
    && move.sends == PluginQueue(config, PluginSent(config, q), PluginSent(config, q + 1))
  }

  lemma PluginNegotiates(config: Config, q: nat)
    requires 1 <= q <= 2
    ensures Advances(config, q)
  {
    VerbsAreDistinct();
  }

  lemma PluginPrepares(config: Config, q: nat)
    requires 3 <= q <= 6
    ensures Advances(config, q)
  {
    VerbsAreDistinct();
  }

  lemma PluginGivesCredential(config: Config, q: nat)
    requires 7 <= q <= 8 && (q == 8 ==> Logs(config))
    ensures Advances(config, q)
  {
    VerbsAreDistinct();
  }

  /** The plugin's move on each message of the host. */
  lemma PluginAdvances(config: Config, q: nat)
    requires 1 <= q <= 8 && (q == 8 ==> Logs(config))
    ensures Advances(config, q)
  {
    hide Advances;
    if q <= 2 { PluginNegotiates(config, q); } else if q <= 6 { PluginPrepares(config, q); }
        else { PluginGivesCredential(config, q); }
  }

  // ---------------------------------------------------------------- what every interleaving keeps

  /** How an undisturbed session comes out, and how a disturbed one may. */
  predicate OutcomeFits(config: Config, disturbed: bool, outcome: Outcome) {
    if disturbed then outcome == Failed(Timeout) || outcome == Failed(Cancelled)
    else Answers(config) && outcome == if Sound(config) then Expected(config) else Failed(Protocol)
  }

  /** The host has stopped talking. */
  predicate Ending(config: Config, s: State) {
    && StageFits(config, s)
    && (s.plugin == Exited(Killed) ==> s.killed)
    && (s.disturbed ==> Stopping(config, s))
  }

  /** What each stage goes with. Exactly an undisturbed breakdown drops the child without waiting for it. */
  predicate StageFits(config: Config, s: State) {
    && !s.stage.Talking? && OutcomeFits(config, s.disturbed, s.stage.outcome)
    && match s.stage
       case Grace(_, stopping) => Orderly(config, s) && stopping == s.disturbed && !s.killed
       case Reaping(_) => Orderly(config, s) && s.killed
       case Done(_, waited) => (waited <==> Orderly(config, s)) && if waited then s.plugin.Exited? else s.killed
       case _ => true
  }

  /** The session was stopped, or it was closed because nothing went wrong. */
  predicate Orderly(config: Config, s: State) {
    s.disturbed || Sound(config)
  }

  /** A child that was told to stop: it is never asked to close, and has the cancellation still to read, or has left on it. */
  predicate Stopping(config: Config, s: State) {
    && !s.inputShut && NoClose(s.toPlugin)
    && (s.plugin.Logging? ==> Answers(config))
    && (config.mode.IgnoresCancel? && s.plugin.Exited? ==> s.plugin == Exited(Killed))
    && (config.mode.Hangs? && s.plugin.Exited? ==> s.plugin != Exited(Faulty))
    && (config.mode.Hangs? && !s.plugin.Exited? ==> EndsInCancel(s.toPlugin))
  }

  predicate NoClose(messages: seq<Message>) {
    forall i | 0 <= i < |messages| :: messages[i].verb != "Close"
  }

  predicate EndsInCancel(messages: seq<Message>) {
    messages != [] && messages[|messages| - 1].kind == Cancel
  }

  /** Moves that are left once the host has stopped talking. */
  function Potential(s: State): nat {
    |s.toPlugin| + (if s.stage.Grace? then 2 else if s.stage.Reaping? then 1 else 0)
    + (if s.plugin.Starting? then 1 else 0) + (if s.plugin.Exited? then 0 else 1)
  }

  ghost predicate Inv(config: Config, s: State, left: nat) {
    || (exists h: nat, q: nat :: Joint(config, s, h, q) && left == 60 - h - q)
    || (Ending(config, s) && Potential(s) <= left)
  }

  lemma HostQueueLength(config: Config, from: nat, until: nat)
    requires from <= until <= 8
    ensures |HostQueue(config, from, until)| == until - from
    decreases until - from
  {
    if from < until { HostQueueLength(config, from + 1, until); }
  }

  /** The host reads and goes on, or its reading ends the session. */
  lemma HostReadsJointly(config: Config, s: State, s': State, h: nat, q: nat)
    requires Joint(config, s, h, q) && HostReads(s, s')
    ensures Joint(config, s', h + 1, q) || (Ending(config, s') && |s'.toPlugin| <= 12)
  {
    hide React, PluginMessage, HostMessage, HostAt, PluginAt, OutcomeFits;
    assert h < PluginSent(config, q);
    HostQueueLength(config, Reads(q), h + 1);
    if ReadsOn(config, h) {
      HostAdvances(config, h);
      HostQueueGrows(config, Reads(q), h + 1);
      TalksOn(h + 1);
    } else {
      LastReadEnds(config, h);
      PluginRuns(config, q);
    }
  }

  /** Until the host stops talking, the plugin has not exited. */
  lemma PluginRuns(config: Config, q: nat)
    ensures !PluginAt(config, q).Exited? && (PluginAt(config, q).Logging? ==> Answers(config))
  {
  }

  /** The host takes the `h`-th message and goes on talking. */
  predicate ReadsOn(config: Config, h: nat) {
    h < PluginTotal(config) - (if Answers(config) then 1 else 0) && (h == 6 ==> LogFits(config))
  }

  lemma TalksOn(h: nat)
    ensures !HostAt(h).Finished?
  {
  }

  lemma HostAdvances(config: Config, h: nat)
    requires h < PluginTotal(config) && ReadsOn(config, h)
    ensures React(HostAt(h), Arrives(PluginMessage(config, h))) == Reaction(HostAt(h + 1), [HostMessage(config, h + 1)])
  {
    hide React;
    if h <= 1 { HandshakeAdvances(config, h); } else if h <= 5 { RequestAdvances(config, h); } else { LogAdvances(config); }
  }

  lemma LastReadEnds(config: Config, h: nat)
    requires h < PluginTotal(config) && !ReadsOn(config, h) && (h == 7 ==> LogFits(config))
    ensures var r := React(HostAt(h), Arrives(PluginMessage(config, h)));
            && r.host.Finished? && |r.sends| <= 1 && OutcomeFits(config, false, r.host.outcome)
            && (r.host.closed <==> Sound(config))
  {
    hide React;
    if Logs(config) && h == 6 { LogAdvances(config); } else { AnswerEnds(config); }
  }

  /** The plugin moves within the conversation. */
  lemma PluginStepsJointly(config: Config, s: State, s': State, h: nat, q: nat)
    requires Joint(config, s, h, q) && PluginSteps(config, s, s')
    ensures Joint(config, s', h, q + 1)
  {
    hide PluginMessage, HostMessage, HostAt, PluginReads;
    HostQueueLength(config, Reads(q), h + 1);
    if q == 0 {
      HelloIsFirst(config);
    } else {
      PluginAdvances(config, q);
      PluginQueueJoins(config, h, PluginSent(config, q), PluginSent(config, q + 1));
    }
  }

  lemma HelloIsFirst(config: Config)
    ensures PluginQueue(config, 0, 0) == [] && PluginQueue(config, 0, 1) == [HELLO]
  {
  }

  lemma {:induction false} PluginQueueJoins(config: Config, from: nat, middle: nat, until: nat)
    requires from <= middle <= until <= PluginTotal(config)
    ensures PluginQueue(config, from, until) == PluginQueue(config, from, middle) + PluginQueue(config, middle, until)
    decreases middle - from
  {
    hide PluginMessage;
    if from < middle { PluginQueueJoins(config, from + 1, middle, until); }
  }

  lemma DisturbEnds(config: Config, s: State, s': State, h: nat, q: nat)
    requires Joint(config, s, h, q) && Disturb(s, s')
    ensures Ending(config, s') && |s'.toPlugin| <= 12
  {
    hide React, HostMessage, PluginMessage, HostAt, PluginAt, HostQueue, PluginQueue, StopSends, EndsInCancel, NoClose;
    HostQueueLength(config, Reads(q), h + 1);
    HostNeverCloses(config, Reads(q), h + 1);
    TalksOn(h);
    PluginRuns(config, q);
    StopReacts(HostAt(h));
    StopIsLast(HostQueue(config, Reads(q), h + 1), React(HostAt(h), TimedOut).sends);
    StopIsLast(HostQueue(config, Reads(q), h + 1), React(HostAt(h), Interrupted).sends);
  }

  lemma StopIsLast(queue: seq<Message>, sends: seq<Message>)
    requires NoClose(queue) && StopSends(sends)
    ensures NoClose(queue + sends) && EndsInCancel(queue + sends) && |queue + sends| == |queue| + 1
  {
  }

  lemma {:induction false} HostNeverCloses(config: Config, from: nat, until: nat)
    requires from <= until <= 8
    ensures NoClose(HostQueue(config, from, until))
    decreases until - from
  {
    hide HostMessage;
    if from < until {
      HostNeverCloses(config, from + 1, until);
      MessageIsNoClose(config, from);
    }
  }

  lemma MessageIsNoClose(config: Config, k: nat)
    requires k <= 7
    ensures HostMessage(config, k).verb != "Close"
  {
    VerbsAreDistinct();
  }

  lemma StopReacts(host: Host)
    requires !host.Finished?
    ensures React(host, TimedOut).host == Finished(Failed(Timeout), false) && StopSends(React(host, TimedOut).sends)
    ensures React(host, Interrupted).host == Finished(Failed(Cancelled), false) && StopSends(React(host, Interrupted).sends)
  {
    VerbsAreDistinct();
  }

  predicate StopSends(sends: seq<Message>) {
    |sends| == 1 && sends[0].kind == Cancel && sends[0].verb != "Close"
  }

  lemma EndingGoesOn(config: Config, s: State, s': State)
    requires Ending(config, s) && Next(config, s, s')
    ensures Ending(config, s') && Potential(s') < Potential(s)
  {
    hide PluginReads, OutcomeFits, EndsInCancel, NoClose;
    if PluginSteps(config, s, s') && !s.plugin.Starting? && s.toPlugin != [] {
      MoveStays(config, s.plugin, s.toPlugin[0]);
      if s.disturbed { StopGoesOn(config, s.plugin, s.toPlugin); }
    }
  }

  /** A told-to-stop child reads one message. */
  lemma StopGoesOn(config: Config, plugin: Plugin, messages: seq<Message>)
    requires (plugin.Listening? || plugin.Logging?) && messages != [] && NoClose(messages)
             && (plugin.Logging? ==> Answers(config))
    ensures var after := PluginReads(config, plugin, messages[0]).plugin;
            && NoClose(messages[1..])
            && (after.Logging? ==> Answers(config))
            && (after.Exited? ==> !config.mode.IgnoresCancel? && after.exit != Killed)
            && (config.mode.Hangs? && EndsInCancel(messages) ==>
                if after.Exited? then after.exit == Clean else EndsInCancel(messages[1..]))
  {
  }

  lemma MoveStays(config: Config, plugin: Plugin, message: Message)
    requires plugin.Listening? || plugin.Logging?
    ensures var after := PluginReads(config, plugin, message).plugin; !after.Starting? && after != Exited(Killed)
  {
  }

  lemma NextKeeps(config: Config, s: State, s': State, left: nat)
    requires Inv(config, s, left) && Next(config, s, s')
    ensures left > 0 && Inv(config, s', left - 1)
  {
    hide Joint, Ending, HostReads, HostSeesEnd, Disturb, PluginSteps, Leaves;
    if exists h: nat, q: nat :: Joint(config, s, h, q) && left == 60 - h - q {
      var h: nat, q: nat :| Joint(config, s, h, q) && left == 60 - h - q;
      JointIsBounded(config, s, h, q);
      if HostReads(s, s') {
        HostReadsJointly(config, s, s', h, q);
      } else if PluginSteps(config, s, s') {
        PluginStepsJointly(config, s, s', h, q);
      } else {
        DisturbEnds(config, s, s', h, q);
      }
    } else {
      EndingGoesOn(config, s, s');
    }
  }

  lemma JointIsBounded(config: Config, s: State, h: nat, q: nat)
    requires Joint(config, s, h, q)
    ensures h <= 8 && q <= 9 && s.stage.Talking? && !s.plugin.Exited?
    ensures forall s' :: !HostSeesEnd(s, s') && !Leaves(s, s')
  {
    hide HostMessage, PluginMessage;
  }

  lemma {:induction false} RunKeeps(config: Config, run: seq<State>, i: nat)
    requires Run(config, run) && i < |run|
    ensures i <= 60 && Inv(config, run[i], 60 - i)
  {
    if i == 0 {
      StartIsJoint(config);
    } else {
      RunKeeps(config, run, i - 1);
      RunStep(config, run, i);
      hide Run, Inv, Next;
      NextKeeps(config, run[i - 1], run[i], 60 - (i - 1));
    }
  }

  lemma RunStep(config: Config, run: seq<State>, i: nat)
    requires Run(config, run) && 0 < i < |run|
    ensures Next(config, run[i - 1], run[i])
  {
    hide Next;
    assert Next(config, run[i - 1], run[(i - 1) + 1]);
  }

  lemma StartIsJoint(config: Config)
    ensures Joint(config, Start(), 0, 0)
  {
    assert HostQueue(config, 0, 1) == [HostMessage(config, 0)] + HostQueue(config, 1, 1);
  }

  // ---------------------------------------------------------------- main results

  /** Every run ends: no interleaving has more than sixty steps. */
  lemma RunsEnd(config: Config, run: seq<State>)
    requires Run(config, run)
    ensures |run| <= 61
  {
    RunKeeps(config, run, |run| - 1);
  }

  /**
   * Undisturbed, the host never meets a message it does not expect: it ends with the credential, or with the provider's
   * refusal, exactly as the fixture was set up. Only a log line that is too long or an empty credential fails.
   */
  lemma ConversationSucceeds(config: Config, run: seq<State>, i: nat)
    requires Run(config, run) && i < |run| && !run[i].disturbed && !run[i].stage.Talking?
    ensures Answers(config)
    ensures var outcome := run[i].stage.outcome;
            (outcome == Expected(config) <==> Sound(config)) && (!Sound(config) ==> outcome == Failed(Protocol))
  {
    RunKeeps(config, run, i);
  }

  /**
   * When the host is done, the child's exit has been seen, exactly unless the conversation broke down: then the child is
   * dropped, which sends a kill and does not wait for it. A fixture that hangs or ignores cancellations is always waited for.
   */
  lemma ChildHasGone(config: Config, run: seq<State>, i: nat)
    requires Run(config, run) && i < |run| && run[i].stage.Done?
    ensures run[i].stage.waited <==> run[i].disturbed || Sound(config)
    ensures if run[i].stage.waited then run[i].plugin.Exited? else run[i].killed && run[i].stage.outcome == Failed(Protocol)
    ensures !Answers(config) ==> run[i].stage.waited
    ensures run[i].disturbed ==> run[i].stage.outcome == Failed(Timeout) || run[i].stage.outcome == Failed(Cancelled)
  {
    RunKeeps(config, run, i);
  }

  /** A fixture that ignores cancellations leaves only by the kill ... */
  lemma IgnoringNeedsKill(config: Config, run: seq<State>, i: nat)
    requires Run(config, run) && i < |run| && config.mode.IgnoresCancel? && run[i].plugin.Exited?
    ensures run[i].killed && run[i].plugin == Exited(Killed)
  {
    RunKeeps(config, run, i);
    if Ending(config, run[i]) { assert run[i].disturbed; }
    NotExitedWhileTalking(config, run[i]);
  }

  lemma NotExitedWhileTalking(config: Config, s: State)
    ensures forall h: nat, q: nat :: Joint(config, s, h, q) ==> !s.plugin.Exited?
  {
  }

  /** ... while one that hangs can leave by answering the cancellation, if the grace is long enough: nobody kills it. */
  lemma HangingCanLeave(config: Config, run: seq<State>, i: nat) returns (more: seq<State>)
    requires Run(config, run) && i < |run| && config.mode.Hangs? && run[i].stage.Grace? && !run[i].plugin.Exited?
    ensures more != [] && Run(config, run[..i + 1] + more)
    ensures var last := more[|more| - 1];
            last.stage == Done(run[i].stage.outcome, true) && last.plugin == Exited(Clean) && !last.killed
  {
    RunKeeps(config, run, i);
    var s := run[i];
    assert Ending(config, s) && s.disturbed;
    var steps, left := LeaveByCancel(config, s);
    var done := left.(stage := Done(s.stage.outcome, true));
    assert Next(config, left, done) by { assert ExitSeen(left, done); }
    more := steps + [done];
    ChainAndOne(config, s, steps, left, done);
    RunExtends(config, run[..i + 1], more);
  }

  /** The steps follow each other from `s` on, up to `last`. */
  ghost predicate Chained(config: Config, s: State, steps: seq<State>, last: State)
    decreases |steps|
  {
    if steps == [] then last == s else Next(config, s, steps[0]) && Chained(config, steps[0], steps[1..], last)
  }

  /** The child reads on up to the cancellation and leaves, whatever else it was sent before. */
  lemma {:induction false} LeaveByCancel(config: Config, s: State) returns (steps: seq<State>, last: State)
    requires config.mode.Hangs? && (s.plugin.Starting? || s.plugin.Listening?) && EndsInCancel(s.toPlugin)
    ensures Chained(config, s, steps, last)
    ensures last.plugin == Exited(Clean) && last.stage == s.stage && last.killed == s.killed
    decreases |s.toPlugin|, if s.plugin.Starting? then 1 else 0
  {
    var next: State;
    if s.plugin.Starting? {
      next := s.(plugin := Listening, toHost := s.toHost + [HELLO]);
    } else {
      var move := PluginReads(config, s.plugin, s.toPlugin[0]);
      next := s.(plugin := move.plugin, toPlugin := s.toPlugin[1..], toHost := s.toHost + move.sends);
    }
    assert Next(config, s, next) by { assert PluginSteps(config, s, next); }
    if next.plugin.Exited? {
      steps, last := [next], next;
      assert [next][1..] == [];
    } else {
      var later;
      later, last := LeaveByCancel(config, next);
      steps := [next] + later;
      assert steps[1..] == later;
    }
  }

  lemma {:induction false} ChainAndOne(config: Config, s: State, steps: seq<State>, last: State, next: State)
    requires Chained(config, s, steps, last) && Next(config, last, next)
    ensures Chained(config, s, steps + [next], next)
    decreases |steps|
  {
    hide Next;
    if steps == [] {
      assert ([] + [next])[1..] == [];
    } else {
      ChainAndOne(config, steps[0], steps[1..], last, next);
      assert (steps + [next])[1..] == steps[1..] + [next];
    }
  }

  lemma {:induction false} RunExtends(config: Config, run: seq<State>, more: seq<State>)
    requires Run(config, run) && more != [] && Chained(config, run[|run| - 1], more, more[|more| - 1])
    ensures Run(config, run + more)
    decreases |more|
  {
    hide Next;
    var longer := run + [more[0]];
    assert Run(config, longer);
    if |more| == 1 {
      assert run + more == longer;
    } else {
      RunExtends(config, longer, more[1..]);
      assert longer + more[1..] == run + more;
    }
  }

  ghost predicate CanGoOn(config: Config, s: State) {
    exists s' :: Next(config, s, s')
  }

  /** A run that cannot go on has ended: the host is done and the child has exited. */
  lemma RunsEndWithExit(config: Config, run: seq<State>)
    requires Run(config, run) && !CanGoOn(config, run[|run| - 1])
    ensures run[|run| - 1].stage.Done? && run[|run| - 1].plugin.Exited?
  {
    var s := run[|run| - 1];
    NoDeadlock(config, run, |run| - 1);
    RunKeeps(config, run, |run| - 1);
    assert !CanMove(config, s) by { MoveIsStep(config, s); }
    if s.stage.Talking? {
      var s' :| Disturb(s, s');
      assert Next(config, s, s');
    }
    if s.stage.Done? && !s.plugin.Exited? {
      assert Leaves(s, s.(plugin := Exited(Killed)));
    }
  }

  lemma MoveIsStep(config: Config, s: State)
    ensures CanMove(config, s) ==> CanGoOn(config, s)
  {
    if CanMove(config, s) {
      var s' :| HostReads(s, s') || PluginSteps(config, s, s') || Leaves(s, s');
      assert Next(config, s, s');
    }
  }

  /** Somebody can move without a timeout or a cancellation. */
  ghost predicate CanMove(config: Config, s: State) {
    exists s' :: HostReads(s, s') || PluginSteps(config, s, s') || Leaves(s, s')
  }

  /** The fixture has taken in everything and keeps silent, and the host waits for the credential. */
  predicate Silent(config: Config, s: State) {
    && !Answers(config) && s.stage == Talking(Asking(Credentials)) && s.plugin == Listening && s.toPlugin == [] && s.toHost == []
  }

  /** There is no deadlock: until the host is done somebody can move, but for a fixture that hangs, which a timeout ends. */
  lemma NoDeadlock(config: Config, run: seq<State>, i: nat)
    requires Run(config, run) && i < |run|
    ensures run[i].stage.Done? || CanMove(config, run[i]) || Silent(config, run[i])
    ensures run[i].stage.Talking? ==> exists s' :: Disturb(run[i], s') && s'.stage.Grace?
  {
    RunKeeps(config, run, i);
    var s := run[i];
    if s.stage.Grace? {
      assert Leaves(s, s.(stage := Reaping(s.stage.outcome), killed := true));
    } else if s.stage.Reaping? {
      if s.plugin.Exited? {
        assert Leaves(s, s.(stage := Done(s.stage.outcome, true)));
      } else {
        assert Leaves(s, s.(plugin := Exited(Killed)));
      }
    } else if s.stage.Talking? {
      var h: nat, q: nat :| Joint(config, s, h, q) && 60 - i == 60 - h - q;
      JointMoves(config, s, h, q);
      StopReacts(HostAt(h));
      assert Disturb(s, HostTakes(s, TimedOut).(disturbed := true));
    }
  }

  lemma JointMoves(config: Config, s: State, h: nat, q: nat)
    requires Joint(config, s, h, q)
    ensures CanMove(config, s) || Silent(config, s)
    ensures s.stage == Talking(HostAt(h)) && !HostAt(h).Finished?
  {
    hide HostMessage, PluginMessage, React, PluginReads;
    HostQueueLength(config, Reads(q), h + 1);
    TalksOn(h);
    if q == 0 {
      assert PluginSteps(config, s, s.(plugin := Listening, toHost := s.toHost + [HELLO]));
    } else if h < PluginSent(config, q) {
      assert HostReads(s, HostTakes(s.(toHost := s.toHost[1..]), Arrives(s.toHost[0])));
    } else if Reads(q) < h + 1 {
      var move := PluginReads(config, s.plugin, s.toPlugin[0]);
      assert PluginSteps(config, s, s.(plugin := move.plugin, toPlugin := s.toPlugin[1..], toHost := s.toHost + move.sends));
    } else {
      assert h == 6 && q == 8;
    }
  }

  // ---------------------------------------------------------------- conversations at their end

  /** Left alone, a conversation with a fixture that answers comes to its end. */
  lemma {:induction false} TalkToTheEnd(config: Config, run: seq<State>) returns (whole: seq<State>)
    requires Run(config, run) && Answers(config) && !run[|run| - 1].disturbed
    ensures Run(config, whole) && run <= whole && !whole[|whole| - 1].disturbed && !whole[|whole| - 1].stage.Talking?
    ensures if run[|run| - 1].stage.Talking? then !whole[|whole| - 1].plugin.Exited? else whole == run
    decreases 62 - |run|
  {
    hide Joint, HostReads, PluginSteps, Leaves;
    var s := run[|run| - 1];
    RunKeeps(config, run, |run| - 1);
    if s.stage.Talking? {
      var h: nat, q: nat :| Joint(config, s, h, q) && 60 - (|run| - 1) == 60 - h - q;
      JointMoves(config, s, h, q);
      var s' :| HostReads(s, s') || PluginSteps(config, s, s') || Leaves(s, s');
      MoveIsUndisturbed(config, s, s');
      MoveLeavesPlugin(config, s, s', h, q);
      RunGrows(config, run, s');
      whole := TalkToTheEnd(config, run + [s']);
    } else {
      whole := run;
    }
  }

  lemma MoveIsUndisturbed(config: Config, s: State, s': State)
    requires HostReads(s, s') || PluginSteps(config, s, s') || Leaves(s, s')
    ensures Next(config, s, s') && s'.disturbed == s.disturbed
  {
    hide React, PluginReads;
  }

  lemma MoveLeavesPlugin(config: Config, s: State, s': State, h: nat, q: nat)
    requires Joint(config, s, h, q) && (HostReads(s, s') || PluginSteps(config, s, s') || Leaves(s, s'))
    ensures !s'.plugin.Exited?
  {
    hide Joint, HostReads, PluginSteps, Leaves;
    JointIsBounded(config, s, h, q);
    if PluginSteps(config, s, s') {
      PluginStepsJointly(config, s, s', h, q);
      JointIsBounded(config, s', h, q + 1);
    } else {
      ReadLeavesPlugin(s, s');
    }
  }

  lemma ReadLeavesPlugin(s: State, s': State)
    ensures HostReads(s, s') ==> s'.plugin == s.plugin
  {
    hide React;
  }

  lemma RunGrows(config: Config, run: seq<State>, s': State)
    requires Run(config, run) && Next(config, run[|run| - 1], s')
    ensures Run(config, run + [s'])
  {
    hide Next;
  }

  /**
   * Both unsound setups do occur: empty secrets, and a log line of one byte more than the host takes. The host is then
   * done with a child that has been killed but has not exited yet.
   */
  lemma UnsoundSetupsFail() returns (empty: seq<State>, long: seq<State>)
    ensures var config := Config(Succeeds, None, "", "");
            Run(config, empty) && BrokenDown(empty[|empty| - 1])
    ensures var config := Config(Succeeds, Some(LONG_LINE), "user", "secret");
            Run(config, long) && BrokenDown(long[|long| - 1])
  {
    empty := UnsoundFails(Config(Succeeds, None, "", ""));
    long := UnsoundFails(Config(Succeeds, Some(LONG_LINE), "user", "secret"));
  }

  predicate BrokenDown(s: State) {
    s.stage == Done(Failed(Protocol), false) && s.killed && !s.plugin.Exited?
  }

  const LONG_LINE: string := seq(MAX_LOG_MESSAGE_BYTES + 1, i => 'x')

  lemma UnsoundFails(config: Config) returns (whole: seq<State>)
    requires Answers(config) && !Sound(config)
    ensures Run(config, whole) && BrokenDown(whole[|whole| - 1])
  {
    whole := TalkToTheEnd(config, [Start()]);
    RunKeeps(config, whole, |whole| - 1);
    ConversationSucceeds(config, whole, |whole| - 1);
  }
}
