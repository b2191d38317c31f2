/** The cancellation token (crates/dv-core/src/cancellation.rs) as a state machine. */
module Cancellation {

  // Any number of threads request, cancel, wait and ask for the remaining grace, each atomic access being one step.
  // Accesses are sequentially consistent, and `notify_waiters` wakes every `Notified` that was created before it.

  const RUNNING: nat := 0
  const CANCELLING: nat := 1
  const FORCED: nat := 2
  const NO_REQUEST: nat := 0xFFFF_FFFF_FFFF_FFFF

  /** Two seconds, in the microseconds that the token counts in. */
  const CHILD_GRACE: nat := 2_000_000

  // ---------------------------------------------------------------- threads

  /** Where `request` or `cancel` stands: before reading the clock, before its compare-exchange, and so on. */
  datatype RequestPc = Entered | Stamped(elapsed: nat) | Raising | Notifying | Finished

  datatype Outcome = Untried | First | Second

  /** Where `wait_for` stands. A ticket is the number of `notify_waiters` calls when the `Notified` was created. */
  datatype WaitPc = Checking | Registering | Rechecking(ticket: nat) | Parked(ticket: nat) | Returned

  /** Where `remaining_child_grace` stands. */
  datatype GracePc = Asked | Unforced | Deadline(requested: nat) | Answered(grace: nat)

  datatype Thread =
    /** `request` if `forcing`, else `cancel`, with the outcome of its compare-exchange. */
    | Requester(forcing: bool, outcome: Outcome, at: RequestPc)
    | Waiter(expected: nat, waiting: WaitPc)
    /** `bound` remembers the grace that was left when the question was asked. */
    | Reader(bound: nat, asking: GracePc)

  datatype State = State(threads: seq<Thread>, requested: nat, phase: nat, calls: nat, now: nat)

  function Max(a: nat, b: nat): nat {
    if a < b then b else a
  }

  /** What `remaining_child_grace` would say if it ran at once. */
  function Remaining(s: State): nat {
    if s.phase >= FORCED then 0 else if s.requested == NO_REQUEST then CHILD_GRACE else Until(s.requested + CHILD_GRACE, s.now)
  }

  function Until(deadline: nat, now: nat): nat {
    if deadline <= now then 0 else deadline - now
  }

  // ---------------------------------------------------------------- steps

  /** A thread that has not returned can move, unless it is parked and nobody has called `notify_waiters` since. */
  predicate Enabled(s: State, t: nat) {
    t < |s.threads| &&
    match s.threads[t]
    case Requester(_, _, pc) => pc != Finished
    case Waiter(_, pc) => pc != Returned && (pc.Parked? ==> pc.ticket != s.calls)
    case Reader(_, pc) => !pc.Answered?
  }

  function Put(s: State, t: nat, thread: Thread): State
    requires t < |s.threads|
  {
    s.(threads := s.threads[t := thread])
  }

  function MoveRequester(s: State, t: nat): State
    requires Enabled(s, t) && s.threads[t].Requester?
  {
    var th := s.threads[t];
    match th.at
    case Entered => Put(s, t, th.(at := Stamped(if s.now < NO_REQUEST then s.now else NO_REQUEST - 1)))
    case Stamped(elapsed) =>
      if s.requested == NO_REQUEST then Put(s, t, th.(outcome := First, at := Raising)).(requested := elapsed)
      else Put(s, t, th.(outcome := Second, at := if th.forcing then Raising else Notifying))
    case Raising => Put(s, t, th.(at := Notifying)).(phase := Max(s.phase, if th.outcome == First then CANCELLING else FORCED))
    case Notifying => Put(s, t, th.(at := Finished)).(calls := s.calls + 1)
  }

  function MoveWaiter(s: State, t: nat): State
    requires Enabled(s, t) && s.threads[t].Waiter?
  {
    var th := s.threads[t];
    match th.waiting
    case Checking => Put(s, t, th.(waiting := if s.phase >= th.expected then Returned else Registering))
    case Registering => Put(s, t, th.(waiting := Rechecking(s.calls)))
    case Rechecking(ticket) => Put(s, t, th.(waiting := if s.phase >= th.expected then Returned else Parked(ticket)))
    case Parked(_) => Put(s, t, th.(waiting := Checking))
  }

  function MoveReader(s: State, t: nat): State
    requires Enabled(s, t) && s.threads[t].Reader?
  {
    var th := s.threads[t];
    match th.asking
    case Asked => Put(s, t, Reader(Remaining(s), if s.phase >= FORCED then Answered(0) else Unforced))
    case Unforced => Put(s, t, th.(asking := if s.requested == NO_REQUEST then Answered(CHILD_GRACE) else Deadline(s.requested)))
    case Deadline(requested) => Put(s, t, th.(asking := Answered(Until(requested + CHILD_GRACE, s.now))))
  }

  function Move(s: State, t: nat): State
    requires Enabled(s, t)
  {
    match s.threads[t]
    case Requester(_, _, _) => MoveRequester(s, t)
    case Waiter(_, _) => MoveWaiter(s, t)
    case Reader(_, _) => MoveReader(s, t)
  }

  /** One thread moves, or time passes. */
  ghost predicate Next(s: State, s': State) {
    (exists t: nat :: Enabled(s, t) && s' == Move(s, t)) || (s.now <= s'.now && s' == s.(now := s'.now))
  }

  predicate Fresh(thread: Thread) {
    match thread
    case Requester(_, outcome, pc) => outcome == Untried && pc == Entered
    case Waiter(expected, pc) => pc == Checking
    case Reader(bound, pc) => bound == CHILD_GRACE && pc == Asked
  }

  predicate Init(s: State) {
    && s.requested == NO_REQUEST && s.phase == RUNNING && s.calls == 0
    && forall t | 0 <= t < |s.threads| :: Fresh(s.threads[t])
  }

  /** A run: any interleaving of any threads. */
  ghost predicate Run(run: seq<State>) {
    run != [] && Init(run[0]) && forall i | 0 <= i < |run| - 1 :: Next(run[i], run[i + 1])
  }

  // ---------------------------------------------------------------- what every step keeps

  /** The compare-exchange has been won by thread `t`. */
  predicate Won(s: State, t: nat) {
    t < |s.threads| && s.threads[t].Requester? && s.threads[t].outcome == First
  }

  /** Thread `t` is between raising the phase and waking the waiters. */
  predicate AboutToNotify(s: State, t: nat) {
    && t < |s.threads| && s.threads[t].Requester? && s.threads[t].at == Notifying
    && (s.threads[t].outcome == First || s.threads[t].forcing)
  }

  /** Thread `t` is a `request` that lost the compare-exchange and has raised the phase. */
  predicate Forcing(s: State, t: nat) {
    && t < |s.threads| && s.threads[t].Requester? && s.threads[t].forcing && s.threads[t].outcome == Second
    && (s.threads[t].at == Notifying || s.threads[t].at == Finished)
  }

  /** Thread `t` has won and raised the phase. */
  predicate Raised(s: State, t: nat) {
    Won(s, t) && s.threads[t].at != Raising
  }

  predicate PcAgrees(forcing: bool, outcome: Outcome, at: RequestPc) {
    match at
    case Entered => outcome == Untried
    case Stamped(_) => outcome == Untried
    case Raising => outcome != Untried && (outcome == Second ==> forcing)
    case Notifying => outcome != Untried
    case Finished => outcome != Untried
  }

  predicate ThreadOk(s: State, thread: Thread) {
    match thread
    case Requester(forcing, outcome, at) =>
      && PcAgrees(forcing, outcome, at)
      && (at.Stamped? ==> at.elapsed <= s.now && at.elapsed < NO_REQUEST)
      && (outcome != Untried ==> s.requested != NO_REQUEST)
      && (at == Notifying || at == Finished ==>
          (outcome == First ==> s.phase >= CANCELLING) && (outcome == Second && forcing ==> s.phase >= FORCED))
    case Waiter(expected, waiting) =>
      && (waiting == Returned ==> s.phase >= expected)
      && (waiting.Rechecking? || waiting.Parked? ==> waiting.ticket <= s.calls)
    case Reader(bound, asking) => bound <= CHILD_GRACE && ReaderOk(s, bound, asking)
  }

  predicate ReaderOk(s: State, bound: nat, asking: GracePc) {
    match asking
    case Asked => true
    case Unforced => Owed(s) <= bound && (s.requested == NO_REQUEST ==> bound == CHILD_GRACE)
    case Deadline(requested) => requested == s.requested != NO_REQUEST && Owed(s) <= bound
    case Answered(grace) => Remaining(s) <= grace <= bound
  }

  /** The grace by the clock alone. */
  function Owed(s: State): nat {
    if s.requested == NO_REQUEST then CHILD_GRACE else Until(s.requested + CHILD_GRACE, s.now)
  }

  ghost predicate PhaseOk(s: State) {
    && s.phase <= FORCED
    && (s.requested != NO_REQUEST ==> s.requested <= s.now && exists t: nat :: Won(s, t))
    && (forall t: nat, u: nat | Won(s, t) && Won(s, u) :: t == u)
    && (s.phase == CANCELLING ==> exists t: nat :: Raised(s, t))
    && (s.phase == FORCED ==> exists t: nat :: Forcing(s, t))
    && (s.requested == NO_REQUEST ==> s.phase == RUNNING)
  }

  /** No lost wake-up: who is parked although the phase has come is about to be woken. */
  ghost predicate WakeOk(s: State) {
    forall t | 0 <= t < |s.threads| && Overdue(s, t) :: exists u: nat :: AboutToNotify(s, u)
  }

  /** Thread `t` waits in vain so far: parked, not woken, and the phase has reached what it expects. */
  predicate Overdue(s: State, t: nat) {
    && t < |s.threads| && s.threads[t].Waiter? && s.threads[t].waiting.Parked?
    && s.threads[t].waiting.ticket == s.calls && s.phase >= s.threads[t].expected
  }

  ghost predicate Inv(s: State) {
    (forall t | 0 <= t < |s.threads| :: ThreadOk(s, s.threads[t])) && PhaseOk(s) && WakeOk(s)
  }

  // ---------------------------------------------------------------- every step keeps it

  /** What may change in the shared record: the request once, the phase and the clock upwards. */
  predicate Later(s: State, s': State) {
    && s.phase <= s'.phase && s.calls <= s'.calls && s.now <= s'.now
    && (s.requested != NO_REQUEST ==> s'.requested == s.requested)
    && (s.requested == NO_REQUEST && s'.requested != NO_REQUEST ==> s'.requested <= s'.now)
  }

  lemma LessGraceLater(s: State, s': State)
    requires Later(s, s') && (s.requested != NO_REQUEST ==> s.requested <= s.now)
    ensures Remaining(s') <= Remaining(s) <= CHILD_GRACE && Owed(s') <= Owed(s) <= CHILD_GRACE && Remaining(s) <= Owed(s)
  {
  }

  lemma MoveIsLater(s: State, t: nat)
    requires Enabled(s, t) && Inv(s)
    ensures Later(s, Move(s, t)) && |Move(s, t).threads| == |s.threads| && Move(s, t).now == s.now
    ensures forall u | 0 <= u < |s.threads| && u != t :: Move(s, t).threads[u] == s.threads[u]
  {
    assert ThreadOk(s, s.threads[t]);
  }

  lemma ThreadStays(s: State, s': State, thread: Thread)
    requires Later(s, s') && PhaseOk(s) && ThreadOk(s, thread)
    ensures ThreadOk(s', thread)
  {
    LessGraceLater(s, s');
  }

  lemma MovedRequesterOk(s: State, t: nat)
    requires Enabled(s, t) && Inv(s) && s.threads[t].Requester?
    ensures ThreadOk(Move(s, t), Move(s, t).threads[t])
  {
    assert ThreadOk(s, s.threads[t]);
  }

  lemma MovedOk(s: State, t: nat)
    requires Enabled(s, t) && Inv(s)
    ensures ThreadOk(Move(s, t), Move(s, t).threads[t])
  {
    assert ThreadOk(s, s.threads[t]);
    if s.threads[t].Requester? {
      MovedRequesterOk(s, t);
    } else {
      LessGraceLater(s, s);
    }
  }

  /** Whoever has won, raised or forced stays so, and only `t` can become so. */
  lemma MoveKeepsMarks(s: State, t: nat)
    requires Enabled(s, t) && Inv(s)
    ensures forall u: nat :: Won(s, u) ==> Won(Move(s, t), u)
    ensures forall u: nat :: Raised(s, u) ==> Raised(Move(s, t), u)
    ensures forall u: nat :: Forcing(s, u) ==> Forcing(Move(s, t), u)
    ensures forall u: nat | u != t :: Won(Move(s, t), u) ==> Won(s, u)
    ensures Won(Move(s, t), t) && !Won(s, t) ==> s.requested == NO_REQUEST && Move(s, t).requested != NO_REQUEST
  {
    MoveIsLater(s, t);
    assert ThreadOk(s, s.threads[t]);
  }

  lemma WinnerMeansRequested(s: State, u: nat)
    requires Inv(s) && Won(s, u)
    ensures s.requested != NO_REQUEST
  {
    assert ThreadOk(s, s.threads[u]);
  }

  lemma MoveKeepsPhase(s: State, t: nat)
    requires Enabled(s, t) && Inv(s)
    ensures PhaseOk(Move(s, t))
  {
    var s' := Move(s, t);
    MoveIsLater(s, t);
    MoveKeepsMarks(s, t);
    MoveKeepsWinner(s, t);
    forall u: nat, v: nat | Won(s', u) && Won(s', v) ensures u == v {
      if Won(s, u) { WinnerMeansRequested(s, u); }
      if Won(s, v) { WinnerMeansRequested(s, v); }
    }
    MoveKeepsRaiser(s, t);
  }

  lemma MoveKeepsWinner(s: State, t: nat)
    requires Enabled(s, t) && Inv(s)
    ensures var s' := Move(s, t);
            s'.requested != NO_REQUEST ==> s'.requested <= s'.now && exists u: nat :: Won(s', u)
  {
    var s' := Move(s, t);
    MoveIsLater(s, t);
    assert ThreadOk(s, s.threads[t]);
    if s.requested != NO_REQUEST {
      var w: nat :| Won(s, w);
      MoveKeepsMarks(s, t);
      assert Won(s', w);
    } else if s'.requested != NO_REQUEST {
      assert Won(s', t);
    }
  }

  lemma MoveKeepsRaiser(s: State, t: nat)
    requires Enabled(s, t) && Inv(s)
    ensures var s' := Move(s, t);
            && s'.phase <= FORCED
            && (s'.phase == CANCELLING ==> exists u: nat :: Raised(s', u))
            && (s'.phase == FORCED ==> exists u: nat :: Forcing(s', u))
            && (s'.requested == NO_REQUEST ==> s'.phase == RUNNING)
  {
    var s' := Move(s, t);
    MoveIsLater(s, t);
    MoveKeepsMarks(s, t);
    assert ThreadOk(s, s.threads[t]);
    if s'.phase == s.phase {
      if s.phase == CANCELLING { var u: nat :| Raised(s, u); assert Raised(s', u); }
      if s.phase == FORCED { var u: nat :| Forcing(s, u); assert Forcing(s', u); }
    } else {
      assert s.threads[t].Requester? && s.threads[t].at == Raising;
      assert if s.threads[t].outcome == First then Raised(s', t) else Forcing(s', t);
    }
  }

  lemma MoveKeepsWake(s: State, t: nat)
    requires Enabled(s, t) && Inv(s)
    ensures WakeOk(Move(s, t))
  {
    var s' := Move(s, t);
    MoveIsLater(s, t);
    forall w | 0 <= w < |s'.threads| && Overdue(s', w) ensures exists u: nat :: AboutToNotify(s', u) {
      assert ThreadOk(s, s.threads[t]);
      if w != t {
        if Overdue(s, w) {
          var u: nat :| AboutToNotify(s, u);
          assert u == t || AboutToNotify(s', u);
          NotifyWakes(s, t, w);
        } else {
          OverdueAfterRaise(s, t, w);
          assert AboutToNotify(s', t);
        }
      }
    }
  }

  /** After a notification nobody who was parked before is still unwoken. */
  lemma NotifyWakes(s: State, t: nat, w: nat)
    requires Enabled(s, t) && Inv(s) && w < |s.threads| && w != t && Overdue(s, w) && Overdue(Move(s, t), w)
    ensures !AboutToNotify(s, t)
  {
  }

  lemma OverdueAfterRaise(s: State, t: nat, w: nat)
    requires Enabled(s, t) && Inv(s) && w < |s.threads| && w != t && !Overdue(s, w) && Overdue(Move(s, t), w)
    ensures AboutToNotify(Move(s, t), t)
  {
    assert ThreadOk(s, s.threads[w]);
  }

  lemma TickKeeps(s: State, s': State)
    requires Inv(s) && s.now <= s'.now && s' == s.(now := s'.now)
    ensures Inv(s')
  {
    forall t | 0 <= t < |s'.threads| ensures ThreadOk(s', s'.threads[t]) {
      ThreadStays(s, s', s.threads[t]);
    }
    TickKeepsWitnesses(s, s');
  }

  lemma TickKeepsWitnesses(s: State, s': State)
    requires PhaseOk(s) && WakeOk(s) && s.now <= s'.now && s' == s.(now := s'.now)
    ensures PhaseOk(s') && WakeOk(s')
  {
    forall t: nat ensures Won(s', t) == Won(s, t) && Raised(s', t) == Raised(s, t) && Forcing(s', t) == Forcing(s, t) {
    }
    forall t | 0 <= t < |s'.threads| && Overdue(s', t) ensures exists u: nat :: AboutToNotify(s', u) {
      assert Overdue(s, t);
      var u: nat :| AboutToNotify(s, u);
      assert AboutToNotify(s', u);
    }
  }

  lemma NextKeeps(s: State, s': State)
    requires Inv(s) && Next(s, s')
    ensures Inv(s') && Later(s, s') && |s'.threads| == |s.threads|
  {
    if exists t: nat :: Enabled(s, t) && s' == Move(s, t) {
      var t: nat :| Enabled(s, t) && s' == Move(s, t);
      MoveIsLater(s, t);
      forall u | 0 <= u < |s'.threads| ensures ThreadOk(s', s'.threads[u]) {
        if u == t { MovedOk(s, t); } else { ThreadStays(s, s', s.threads[u]); }
      }
      MoveKeepsPhase(s, t);
      MoveKeepsWake(s, t);
    } else {
      TickKeeps(s, s');
    }
  }

  lemma {:induction false} RunKeeps(run: seq<State>, i: nat)
    requires Run(run) && i < |run|
    ensures Inv(run[i]) && |run[i].threads| == |run[0].threads|
  {
    hide Next;
    if i > 0 {
      RunKeeps(run, i - 1);
      RunStep(run, i);
      NextKeeps(run[i - 1], run[i]);
    }
  }

  lemma RunStep(run: seq<State>, i: nat)
    requires Run(run) && 0 < i < |run|
    ensures Next(run[i - 1], run[i])
  {
    hide Next;
    assert Next(run[i - 1], run[(i - 1) + 1]);
  }

  lemma LaterIsTransitive(a: State, b: State, c: State)
    requires Later(a, b) && Later(b, c) && (b.requested != NO_REQUEST ==> b.requested <= b.now)
    ensures Later(a, c)
  {
  }

  // ---------------------------------------------------------------- main results

  lemma {:induction false} RunIsMonotone(run: seq<State>, i: nat, j: nat)
    requires Run(run) && i <= j < |run|
    ensures Later(run[i], run[j])
    decreases j
  {
    hide Run, Next, WakeOk, ThreadOk;
    if i < j {
      RunIsMonotone(run, i, j - 1);
      RunKeeps(run, j - 1);
      RunStep(run, j);
      NextKeeps(run[j - 1], run[j]);
      LaterIsTransitive(run[i], run[j - 1], run[j]);
    }
  }

  /** In every interleaving the phase never falls and the time of the first request is written at most once. */
  lemma PhaseNeverFalls(run: seq<State>, i: nat, j: nat)
    requires Run(run) && i <= j < |run|
    ensures run[i].phase <= run[j].phase <= FORCED
    ensures run[i].requested != NO_REQUEST ==> run[j].requested == run[i].requested
    ensures run[j].phase >= CANCELLING ==> run[j].requested != NO_REQUEST
  {
    RunIsMonotone(run, i, j);
    RunKeeps(run, j);
  }

  /** Forced means that some `request` found an earlier one. */
  lemma ForcedMeansSecondRequest(run: seq<State>, i: nat)
    requires Run(run) && i < |run| && run[i].phase == FORCED
    ensures exists t: nat, u: nat :: t != u && Forcing(run[i], t) && Won(run[i], u)
  {
    RunKeeps(run, i);
    var t: nat :| Forcing(run[i], t);
    assert run[i].requested != NO_REQUEST;
    var u: nat :| Won(run[i], u);
  }

  /** A `request` that has returned has cancelled; one that lost has forced. */
  lemma ReturnedRequestCancelled(run: seq<State>, i: nat, t: nat)
    requires Run(run) && i < |run| && t < |run[i].threads|
    requires run[i].threads[t].Requester? && run[i].threads[t].forcing && run[i].threads[t].at == Finished
    ensures run[i].phase >= if run[i].threads[t].outcome == First then CANCELLING else FORCED
  {
    RunKeeps(run, i);
    var th := run[i].threads[t];
    assert ThreadOk(run[i], th);
  }

  /**
   * `cancel` promises less. Once a request is recorded the token still runs exactly while the winner of the
   * compare-exchange has not raised the phase and no other `request` has: a `cancel` that lost can return then.
   */
  lemma RunningAfterRequest(run: seq<State>, i: nat)
    requires Run(run) && i < |run| && run[i].requested != NO_REQUEST
    ensures run[i].phase == RUNNING <==>
            (exists w: nat :: Won(run[i], w) && run[i].threads[w].at == Raising) && forall t: nat :: !Forcing(run[i], t)
  {
    var s := run[i];
    RunKeeps(run, i);
    var w: nat :| Won(s, w);
    assert ThreadOk(s, s.threads[w]);
    forall t: nat | Forcing(s, t) ensures s.phase == FORCED {
      assert ThreadOk(s, s.threads[t]);
    }
    if s.phase == CANCELLING {
      var u: nat :| Raised(s, u);
      assert Won(s, u);
    }
  }

  /** The run in which the second of two `cancel` calls returns while the token still runs. */
  lemma CancelCanReturnUncancelled() returns (run: seq<State>)
    ensures Run(run)
    ensures var s := run[|run| - 1];
            && |s.threads| == 2 && s.threads[1] == Requester(false, Second, Finished)
            && s.phase == RUNNING
  {
    var idle := Requester(false, Untried, Entered);
    var s0 := State([idle, idle], NO_REQUEST, RUNNING, 0, 0);
    var s1 := Move(s0, 0);
    var s2 := Move(s1, 0);
    var s3 := Move(s2, 1);
    var s4 := Move(s3, 1);
    var s5 := Move(s4, 1);
    run := [s0, s1, s2, s3, s4, s5];
    assert Next(s0, s1) && Next(s1, s2) && Next(s2, s3) && Next(s3, s4) && Next(s4, s5);
  }

  /** A waiter returns only when the phase has come. */
  lemma WaiterReturnsInTime(run: seq<State>, i: nat, t: nat)
    requires Run(run) && i < |run| && t < |run[i].threads|
    requires run[i].threads[t].Waiter? && run[i].threads[t].waiting == Returned
    ensures run[i].phase >= run[i].threads[t].expected
  {
    RunKeeps(run, i);
    assert ThreadOk(run[i], run[i].threads[t]);
  }

  /**
   * No lost wake-up: a waiter that stays parked although the phase has reached what it expects implies a requester
   * that has yet to call `notify_waiters`, and that requester can move. When none can, no waiter is overdue.
   */
  lemma NoLostWakeUp(run: seq<State>, i: nat, t: nat)
    requires Run(run) && i < |run| && Overdue(run[i], t)
    ensures exists u: nat :: AboutToNotify(run[i], u) && Enabled(run[i], u) && !Overdue(Move(run[i], u), t)
  {
    RunKeeps(run, i);
    var s := run[i];
    var u: nat :| AboutToNotify(s, u);
    assert Enabled(s, u);
  }

  /** A waiter whose phase has come is done within four of its own steps, once it is not parked unwoken. */
  function Distance(waiting: WaitPc): nat {
    match waiting
    case Returned => 0
    case Checking => 1
    case Rechecking(_) => 1
    case Registering => 2
    case Parked(_) => 2
  }

  lemma WaiterGetsDone(s: State, t: nat)
    requires Enabled(s, t) && s.threads[t].Waiter? && s.phase >= s.threads[t].expected
    ensures Distance(Move(s, t).threads[t].waiting) < Distance(s.threads[t].waiting)
  {
  }

  // ---------------------------------------------------------------- grace

  /** Thread `t` asks after the state at hand: it has not asked yet, or what it was bounded by is no more than `grace`. */
  predicate AsksLater(s: State, t: nat, grace: nat) {
    t < |s.threads| && s.threads[t].Reader? && (s.threads[t].asking == Asked || s.threads[t].bound <= grace)
  }

  lemma {:induction false} LaterQuestionIsBounded(run: seq<State>, i: nat, j: nat, t: nat, grace: nat)
    requires Run(run) && i <= j < |run| && t < |run[i].threads|
    requires run[i].threads[t].Reader? && run[i].threads[t].asking == Asked && Remaining(run[i]) <= grace
    ensures AsksLater(run[j], t, grace) && Remaining(run[j]) <= grace
    decreases j
  {
    hide Run, Inv, Next, Remaining, AsksLater, Later;
    NothingAskedYet(run[i], t, grace);
    if i < j {
      LaterQuestionIsBounded(run, i, j - 1, t, grace);
      RunKeeps(run, j - 1);
      RunKeeps(run, i);
      RunStep(run, j);
      LaterQuestionStep(run[j - 1], run[j], t, grace);
    }
  }

  lemma NothingAskedYet(s: State, t: nat, grace: nat)
    requires t < |s.threads| && s.threads[t].Reader? && s.threads[t].asking == Asked
    ensures AsksLater(s, t, grace)
  {
  }

  lemma LaterQuestionStep(s: State, s': State, t: nat, grace: nat)
    requires Inv(s) && Next(s, s') && AsksLater(s, t, grace) && Remaining(s) <= grace
    ensures AsksLater(s', t, grace) && Remaining(s') <= grace
  {
    NextKeeps(s, s');
    LessGraceLater(s, s');
    if exists u: nat :: Enabled(s, u) && s' == Move(s, u) {
      var u: nat :| Enabled(s, u) && s' == Move(s, u);
      MoveIsLater(s, u);
    }
  }

  /** The remaining grace is at most two seconds, and no later question gets more than an earlier answer. */
  lemma GraceNeverGrows(run: seq<State>, i: nat, j: nat, a: nat, b: nat)
    requires Run(run) && i <= j < |run| && a < |run[i].threads| && b < |run[i].threads| && b < |run[j].threads|
    requires run[i].threads[a].Reader? && run[i].threads[a].asking.Answered?
    requires run[i].threads[b].Reader? && run[i].threads[b].asking == Asked
    requires run[j].threads[b].Reader? && run[j].threads[b].asking.Answered?
    ensures run[j].threads[b].asking.grace <= run[i].threads[a].asking.grace <= CHILD_GRACE
  {
    RunKeeps(run, i);
    RunKeeps(run, j);
    assert ThreadOk(run[i], run[i].threads[a]);
    LaterQuestionIsBounded(run, i, j, b, run[i].threads[a].asking.grace);
    assert ThreadOk(run[j], run[j].threads[b]);
  }

  /** The grace by the state at hand: none once forced, two seconds without a request, and else what the clock leaves. */
  predicate IsGrace(s: State, grace: nat) {
    || (s.phase == FORCED && grace == 0)
    || (s.requested == NO_REQUEST && grace == 2_000_000)
    || (s.requested != NO_REQUEST && s.now + grace == s.requested + 2_000_000)
    || (s.requested != NO_REQUEST && s.requested + 2_000_000 <= s.now && grace == 0)
  }

  /** An answer is exact: it is the grace of some moment between the question and the answer, not less and not more. */
  lemma {:induction false} GraceIsExact(run: seq<State>, k: nat, j: nat, t: nat)
    requires Run(run) && k <= j < |run| && t < |run[k].threads| && t < |run[j].threads|
    requires run[k].threads[t].Reader? && run[k].threads[t].asking == Asked
    requires run[j].threads[t].Reader? && run[j].threads[t].asking.Answered?
    ensures exists i :: k <= i < j && IsGrace(run[i], run[j].threads[t].asking.grace)
    decreases j
  {
    hide Run, Inv, Next, IsGrace;
    assert k < j;
    RunKeeps(run, j - 1);
    RunStep(run, j);
    StillReader(run, k, j - 1, t);
    AnswerStep(run[j - 1], run[j], t);
    if run[j - 1].threads[t].asking.Answered? {
      GraceIsExact(run, k, j - 1, t);
    }
  }

  lemma {:induction false} StillReader(run: seq<State>, k: nat, j: nat, t: nat)
    requires Run(run) && k <= j < |run| && t < |run[k].threads| && run[k].threads[t].Reader?
    ensures t < |run[j].threads| && run[j].threads[t].Reader?
    decreases j
  {
    hide Run, Inv;
    if k < j {
      StillReader(run, k, j - 1, t);
      RunKeeps(run, j - 1);
      RunStep(run, j);
      ReaderStays(run[j - 1], run[j], t);
    }
  }

  lemma ReaderStays(s: State, s': State, t: nat)
    requires Inv(s) && Next(s, s') && t < |s.threads| && s.threads[t].Reader?
    ensures t < |s'.threads| && s'.threads[t].Reader?
  {
    hide Inv;
    if exists u: nat :: Enabled(s, u) && s' == Move(s, u) {
      var u: nat :| Enabled(s, u) && s' == Move(s, u);
      MoveIsLater(s, u);
    }
  }

  /** An answer stays, or is given by this very step. */
  lemma AnswerStep(s: State, s': State, t: nat)
    requires Inv(s) && Next(s, s') && t < |s.threads| && s.threads[t].Reader?
    requires t < |s'.threads| && s'.threads[t].Reader? && s'.threads[t].asking.Answered?
    ensures if s.threads[t].asking.Answered? then s'.threads[t] == s.threads[t] else IsGrace(s, s'.threads[t].asking.grace)
  {
    if exists u: nat :: Enabled(s, u) && s' == Move(s, u) {
      var u: nat :| Enabled(s, u) && s' == Move(s, u);
      MoveIsLater(s, u);
      assert ThreadOk(s, s.threads[t]) && PhaseOk(s);
    }
  }
}
