/** The loop in which the key-value writer waits for the answers to its requests (backends/kv/writer.go). */
module WaitLoops {
  import opened Wrappers

  // --- The loops' variables ---------------------------------------------------------------------

  datatype AsyncError = ResponseFailed | TimedOut

  datatype LoopVars = LoopVars(responses: nat, requests: int, active: bool, asyncErr: Option<AsyncError>)

  const START := LoopVars(0, -1, false, None)

  /** The select branch for a response: the new variables, and whether the loop signals done. */
  function OnResponse(v: LoopVars, failed: bool): (LoopVars, bool) {
    var w := LoopVars(v.responses + 1, v.requests, true, if failed then Some(ResponseFailed) else v.asyncErr);
    (w, w.requests == w.responses)
  }

  /** The branch for the announced number of requests. */
  function OnCount(v: LoopVars, n: int): (LoopVars, bool) {
    (v.(requests := n), n <= v.responses)
  }

  /** The branch for the timer: the first idle period only clears the flag. */
  function OnTimer(v: LoopVars): (LoopVars, bool) {
    if v.active then (v.(active := false), false) else (v.(asyncErr := Some(TimedOut)), true)
  }

  /** The loop of the key-value writer, one method per branch of its select. */
  class RespWaitLoop {
    var responses: nat
    var requests: int
    var active: bool
    var asyncErr: Option<AsyncError>

    constructor ()
      ensures View() == START
    {
      responses, requests, active, asyncErr := 0, -1, false, None;
    }

    function View(): LoopVars
      reads this
    {
      LoopVars(responses, requests, active, asyncErr)
    }

    method Response(failed: bool) returns (done: bool)
      modifies this
      ensures (View(), done) == OnResponse(old(View()), failed)
    {
      responses := responses + 1;
      active := true;
      if failed {
        asyncErr := Some(ResponseFailed);
      }
      done := requests == responses;
    }

    method Count(n: int) returns (done: bool)
      modifies this
      ensures (View(), done) == OnCount(old(View()), n)
    {
      requests := n;
      done := requests <= responses;
    }

    method Timer() returns (done: bool)
      modifies this
      ensures (View(), done) == OnTimer(old(View()))
    {
      if !active {
        asyncErr := Some(TimedOut);
        return true;
      }
      active := false;
      done := false;
    }
  }

  // --- The writer, its loop and the store, step by step -------------------------------------------

  datatype LoopPc = Running | Signalling | Exited

  datatype WriterPc = Adding | Waiting | Returned(ok: bool)

  /** `armed` and `fired` are the timer: running, and a tick waiting in its channel. */
  datatype State = State(
    sent: nat,                  // requests the appender has issued and counted
    inFlight: nat,              // of these, the ones the store has not answered
    responseChan: seq<bool>,    // answers not yet received; true is a failure
    commChan: seq<int>,
    loop: LoopPc, vars: LoopVars,
    armed: bool, fired: bool,
    writer: WriterPc,
    failures: nat,              // failed responses the loop has received
    gaveUp: nat,                // ticks it has taken with no response since the one before
    signals: nat)               // how often done was signalled

  const INIT := State(0, 0, [], [], Running, START, true, false, Adding, 0, 0, 0)

  datatype Event =
    | Send                      // a PutItem or UpdateItem that was accepted
    | Arrive(failed: bool)      // the store answers one request
    | Announce                  // WaitForComplete sends the count
    | TakeResponse | TakeCount | TakeTick
    | Tick                      // the timer runs out
    | Handshake                 // done is sent and received

  const RESPONSE_CAPACITY := 1000
  const COMM_CAPACITY := 2

  predicate Enabled(s: State, e: Event) {
    match e
    case Send => s.writer == Adding
    case Arrive(_) => s.inFlight > 0 && |s.responseChan| < RESPONSE_CAPACITY
    case Announce => s.writer == Adding && |s.commChan| < COMM_CAPACITY
    case TakeResponse => s.loop == Running && s.responseChan != []
    case TakeCount => s.loop == Running && s.commChan != []
    case TakeTick => s.loop == Running && s.fired
    case Tick => s.armed
    case Handshake => s.loop == Signalling && s.writer == Waiting
  }

  function After(s: State, result: (LoopVars, bool)): State {
    s.(vars := result.0, loop := if result.1 then Signalling else Running)
  }

  function Step(s: State, e: Event): State
    requires Enabled(s, e)
  {
    match e
    case Send => s.(sent := s.sent + 1, inFlight := s.inFlight + 1)
    case Arrive(failed) => s.(inFlight := s.inFlight - 1, responseChan := s.responseChan + [failed])
    case Announce => s.(commChan := s.commChan + [s.sent], writer := Waiting)
    case TakeResponse =>
      var failed := s.responseChan[0];
      // resetting the timer does not take a tick out of its channel
      After(s.(responseChan := s.responseChan[1..], armed := true, failures := s.failures + (if failed then 1 else 0)),
            OnResponse(s.vars, failed))
    case TakeCount => After(s.(commChan := s.commChan[1..]), OnCount(s.vars, s.commChan[0]))
    case TakeTick => After(s.(fired := false, gaveUp := s.gaveUp + (if s.vars.active then 0 else 1)), OnTimer(s.vars))
    case Tick => s.(armed := false, fired := true)
    case Handshake => s.(loop := Exited, writer := Returned(s.vars.asyncErr == None), signals := s.signals + 1)
  }

  /** The state after a schedule of events; None if one of them is not possible when its turn comes. */
  function Run(s: State, events: seq<Event>): Option<State> {
    if events == [] then Some(s) else
      var mid, e := Run(s, events[..|events| - 1]), events[|events| - 1];
      if mid.Some? && Enabled(mid.value, e) then Some(Step(mid.value, e)) else None
  }

  ghost predicate Invariant(s: State) {
    // every request is in flight, answered or received
    && s.sent == s.inFlight + |s.responseChan| + s.vars.responses
    // the announced number, once there is one, is the number of requests
    && (s.writer == Adding ==> s.commChan == [] && s.vars.requests == -1)
    && (s.commChan != [] ==> s.commChan == [s.sent] && s.vars.requests == -1)
    && (s.vars.requests != -1 ==> s.vars.requests == s.sent)
    && (s.writer != Adding ==> s.commChan == [s.sent] || s.vars.requests == s.sent)
    // the equality test is never jumped over
    && (s.loop == Running ==> s.vars.requests == -1 || s.vars.responses < s.vars.requests)
    // without an error, done means all answered
    && (s.loop != Running && s.vars.asyncErr == None ==> s.vars.responses == s.vars.requests == s.sent)
    // an error is a failed response, or that the loop gave up
    && (s.vars.asyncErr == None <==> s.failures == 0 && s.gaveUp == 0)
    && (s.vars.asyncErr == Some(TimedOut) <==> s.gaveUp > 0)
    && (s.gaveUp > 0 ==> s.loop != Running)
    && (s.loop == Exited <==> s.writer.Returned?)
    && s.signals == (if s.loop == Exited then 1 else 0)
    && (s.writer.Returned? ==> s.writer.ok == (s.vars.asyncErr == None))
  }

  lemma StepKeepsInvariant(s: State, e: Event)
    requires Invariant(s) && Enabled(s, e)
    ensures Invariant(Step(s, e))
  {
  }

  /** Every reachable state, whatever the interleaving of sends, answers, the count and the timer. */
  lemma {:induction false} ReachableInvariant(events: seq<Event>, s: State)
    requires Run(INIT, events) == Some(s)
    ensures Invariant(s)
    decreases |events|
  {
    if events != [] {
      var mid := Run(INIT, events[..|events| - 1]).value;
      ReachableInvariant(events[..|events| - 1], mid);
      StepKeepsInvariant(mid, events[|events| - 1]);
    }
  }

  /** WaitForComplete that reports no error: every request was answered, none failed, done was signalled once. */
  lemma CompleteMeansComplete(events: seq<Event>, s: State)
    requires Run(INIT, events) == Some(s) && s.writer == Returned(true)
    ensures s.vars.responses == s.sent && s.inFlight == 0 && s.responseChan == [] && s.failures == 0 && s.signals == 1
  {
    ReachableInvariant(events, s);
  }

  /** WaitForComplete reports an error exactly when a received answer was a failure or the loop gave up idle. */
  lemma ErrorIff(events: seq<Event>, s: State)
    requires Run(INIT, events) == Some(s) && s.writer.Returned?
    ensures s.writer == Returned(false) <==> s.failures > 0 || s.gaveUp > 0
    ensures s.gaveUp > 0 <==> s.vars.asyncErr == Some(TimedOut)
    ensures s.writer == Returned(true) ==> s.vars.responses == s.sent
  {
    ReachableInvariant(events, s);
  }

  /** The loop sees as many failures as there are failed answers among those it took. */
  lemma {:induction false} FailuresAreAnswers(events: seq<Event>, s: State)
    requires Run(INIT, events) == Some(s)
    ensures s.failures + Failed(s.responseChan) == FailedArrivals(events)
    decreases |events|
  {
    if events != [] {
      var n := |events| - 1;
      var mid := Run(INIT, events[..n]).value;
      FailuresAreAnswers(events[..n], mid);
      if events[n].Arrive? {
        assert (mid.responseChan + [events[n].failed])[..|mid.responseChan|] == mid.responseChan;
      } else if events[n].TakeResponse? {
        FailedFirst(mid.responseChan);
      }
    }
  }

  function Failed(answers: seq<bool>): nat {
    if answers == [] then 0 else Failed(answers[..|answers| - 1]) + (if answers[|answers| - 1] then 1 else 0)
  }

  lemma {:induction false} FailedFirst(answers: seq<bool>)
    requires answers != []
    ensures Failed(answers) == (if answers[0] then 1 else 0) + Failed(answers[1..])
  {
    var n := |answers| - 1;
    if n > 0 {
      FailedFirst(answers[..n]);
      assert answers[1..][..n - 1] == answers[..n][1..];
    } else {
      assert answers[..0] == answers[1..] == [];
    }
  }

  function FailedArrivals(events: seq<Event>): nat {
    if events == [] then 0 else
      FailedArrivals(events[..|events| - 1]) + (if events[|events| - 1] == Arrive(true) then 1 else 0)
  }

  /** After the announcement the loop, while it runs, is owed an answer: it cannot have missed the last one. */
  lemma RunningLoopIsOwed(events: seq<Event>, s: State)
    requires Run(INIT, events) == Some(s) && s.loop == Running && s.writer == Waiting
    ensures s.commChan != [] || s.inFlight > 0 || s.responseChan != []
  {
    ReachableInvariant(events, s);
  }

  // --- The timer that is not set again ----------------------------------------------------------------

  /** Steps that only pass time: the timer, and the loop taking its ticks. */
  predicate Idle(events: seq<Event>) {
    forall i :: 0 <= i < |events| ==> events[i] == Tick || events[i] == TakeTick
  }

  /** The ticks that may still reach the loop, and how many it takes to make it give up. */
  function TicksLeft(s: State): nat {
    (if s.armed then 1 else 0) + (if s.fired then 1 else 0)
  }

  function TicksNeeded(s: State): nat {
    if s.vars.active then 2 else 1
  }

  /**
    * Left alone, a running loop can give up exactly when it has ticks enough left. The timer is not
    * set again after a tick, so an idle period that follows a response uses up the last one.
    */
  lemma GivesUpIff(s: State)
    requires s.loop == Running
    ensures (exists events :: Idle(events) && Run(s, events).Some? && Run(s, events).value.loop != Running) <==>
            TicksLeft(s) >= TicksNeeded(s)
  {
    if TicksLeft(s) >= TicksNeeded(s) {
      var events := if s.vars.active then [TakeTick, Tick, TakeTick] else if s.fired then [TakeTick] else [Tick, TakeTick];
      assert [Tick, TakeTick][..1] == [Tick] && [TakeTick][..0] == [] && [Tick][..0] == [];
      assert [TakeTick, Tick, TakeTick][..2] == [TakeTick, Tick] && [TakeTick, Tick][..1] == [TakeTick];
      assert Run(s, []) == Some(s);
      if s.vars.active {
        assert Run(s, [TakeTick]).Some? && Run(s, [TakeTick, Tick]).Some?;
      } else if !s.fired {
        assert Run(s, [Tick]).Some?;
      }
      assert Idle(events) && Run(s, events).Some?;
    } else {
      forall events | Idle(events) && Run(s, events).Some? ensures Run(s, events).value.loop == Running {
        IdleRun(s, events);
      }
    }
  }

  lemma {:induction false} IdleRun(s: State, events: seq<Event>)
    requires s.loop == Running && TicksLeft(s) < TicksNeeded(s) && Idle(events) && Run(s, events).Some?
    ensures var t := Run(s, events).value; t.loop == Running && TicksLeft(t) < TicksNeeded(t)
  {
    if events != [] {
      assert events[|events| - 1] in {Tick, TakeTick};
      IdleRun(s, events[..|events| - 1]);
    }
  }

  /** A response sets the timer again: the loop can then give up idle exactly when a tick was waiting already. */
  lemma ResponseRearms(s: State)
    requires Enabled(s, TakeResponse) && Step(s, TakeResponse).loop == Running
    ensures var t := Step(s, TakeResponse);
      (exists events :: Idle(events) && Run(t, events).Some? && Run(t, events).value.loop != Running) <==> s.fired
  {
    GivesUpIff(Step(s, TakeResponse));
  }

  lemma OneMore(s: State, events: seq<Event>, mid: State, e: Event)
    requires Run(s, events) == Some(mid) && Enabled(mid, e)
    ensures Run(s, events + [e]) == Some(Step(mid, e))
  {
    assert (events + [e])[..|events|] == events;
  }

  /**
    * Two requests, one answer, an idle period, and only then the announcement: a loop that can no
    * longer give up, and waits for an answer that may never come, is reachable.
    */
  lemma HangIsReachable() returns (events: seq<Event>, s: State)
    ensures Run(INIT, events) == Some(s)
    ensures s.loop == Running && s.writer == Waiting && s.inFlight == 1 && s.responseChan == [] && s.commChan == []
    ensures TicksLeft(s) < TicksNeeded(s)
  {
    events, s := OneAnswerThenIdle();
    hide Run;
    OneMore(INIT, events, s, Announce);
    events, s := events + [Announce], Step(s, Announce);
    OneMore(INIT, events, s, TakeCount);
    events, s := events + [TakeCount], Step(s, TakeCount);
  }

  lemma OneAnswerThenIdle() returns (events: seq<Event>, s: State)
    ensures Run(INIT, events) == Some(s)
    ensures s == INIT.(sent := 2, inFlight := 1, vars := LoopVars(1, -1, false, None), armed := false)
  {
    events, s := TwoSent();
    hide Run;
    OneMore(INIT, events, s, Arrive(false));
    events, s := events + [Arrive(false)], Step(s, Arrive(false));
    OneMore(INIT, events, s, TakeResponse);
    events, s := events + [TakeResponse], Step(s, TakeResponse);
    OneMore(INIT, events, s, Tick);
    events, s := events + [Tick], Step(s, Tick);
    OneMore(INIT, events, s, TakeTick);
    events, s := events + [TakeTick], Step(s, TakeTick);
  }

  lemma TwoSent() returns (events: seq<Event>, s: State)
    ensures Run(INIT, events) == Some(s) && s == INIT.(sent := 2, inFlight := 2)
  {
    events, s := [], INIT;
    OneMore(INIT, events, s, Send);
    events, s := events + [Send], Step(s, Send);
    OneMore(INIT, events, s, Send);
    events, s := events + [Send], Step(s, Send);
  }
}
