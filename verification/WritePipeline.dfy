/**
  * The write pipeline: the gRPC handler that receives frames from a stream (`Server.Write` in
  * grpc/server.go), a channel of capacity 1, and the consumer that adds them to an appender
  * (`API.Write` in api/api.go), over all interleavings.
  */
module WritePipeline {
  import opened Wrappers

  /** A frame, as far as the pipeline looks at it. */
  datatype Frame = Frame(id: nat, rows: nat)

  datatype Message = FrameMessage(frame: Frame) | NilFrame

  /** What the client sends: an initial frame with the request, messages, and how the stream ends. */
  datatype Client = Client(initial: Option<Frame>, stream: seq<Message>, broken: bool)

  function FramesIn(messages: seq<Message>): seq<Frame> {
    if messages == [] then [] else
      FramesIn(messages[..|messages| - 1]) + FrameOf(messages[|messages| - 1])
  }

  function FrameOf(message: Message): seq<Frame> {
    if message.FrameMessage? then [message.frame] else []
  }

  function OrNone(frame: Option<Frame>): seq<Frame> {
    if frame.Some? then [frame.value] else []
  }

  function Rows(frames: seq<Frame>): nat {
    if frames == [] then 0 else Rows(frames[..|frames| - 1]) + frames[|frames| - 1].rows
  }

  /** The rows of frames are summed up, each frame's counted once. */
  lemma {:induction false} RowsAdd(a: seq<Frame>, b: seq<Frame>)
    ensures Rows(a + b) == Rows(a) + Rows(b)
    ensures forall frame :: Rows([frame]) == frame.rows
  {
    forall frame ensures Rows([frame]) == frame.rows {
      assert [frame][..0] == [];
    }
    if b == [] {
      assert a + b == a;
    } else {
      RowsAdd(a, b[..|b| - 1]);
      assert (a + b)[..|a + b| - 1] == a + b[..|b| - 1];
    }
  }

  lemma LastMessage(messages: seq<Message>)
    requires messages != []
    ensures FramesIn(messages) == FramesIn(messages[..|messages| - 1]) + FrameOf(messages[|messages| - 1])
  {
  }

  /** The frames of a stream are those of its messages in order; a message without a frame has none. */
  lemma {:induction false} FramesAdd(a: seq<Message>, b: seq<Message>, message: Message)
    ensures FramesIn(a + b) == FramesIn(a) + FramesIn(b)
    ensures FramesIn([message]) == FrameOf(message)
  {
    LastMessage([message]);
    assert [message][..0] == [] && FramesIn([]) == [];
    hide FramesIn, FrameOf;
    if b == [] {
      assert a + b == a;
    } else {
      FramesAdd(a, b[..|b| - 1], message);
      LastMessage(b);
      LastMessage(a + b);
      assert (a + b)[..|a + b| - 1] == a + b[..|b| - 1];
    }
  }

  // --- The consumer on its own ----------------------------------------------------------------------

  /** The backend's appender: any call on it may fail. */
  class FrameAppender {
    var added: seq<Frame>
    var completed: bool
    var refused: nat

    constructor (initial: seq<Frame>)
      ensures added == initial && !completed && refused == 0
    {
      added, completed, refused := initial, false, 0;
    }

    method Add(frame: Frame) returns (ok: bool)
      modifies `added, `refused
      ensures added == if ok then old(added) + [frame] else old(added)
      ensures refused == old(refused) + (if ok then 0 else 1)
    {
      ok := *;
      if ok {
        added := added + [frame];
      } else {
        refused := refused + 1;
      }
    }

    method WaitForComplete() returns (ok: bool)
      modifies `completed, `refused
      ensures ok ==> completed
      ensures !ok ==> completed == old(completed)
      ensures refused == old(refused) + (if ok then 0 else 1)
    {
      ok := *;
      completed := completed || ok;
      refused := if ok then refused else refused + 1;
    }
  }

  /**
    * The loop of `API.Write` over everything its channel will carry. A null appender stands for the
    * ways in which the request fails before there is one.
    */
  method ApiWrite(appender: FrameAppender?, initial: Option<Frame>, frames: seq<Frame>)
    returns (nFrames: int, nRows: int, ok: bool)
    requires appender != null ==> appender.added == OrNone(initial) && !appender.completed
    modifies appender
    ensures appender == null ==> nFrames == nRows == -1 && !ok
    ensures appender != null ==> nFrames == |appender.added| && nRows == Rows(appender.added)
    ensures appender != null ==> OrNone(initial) <= appender.added <= OrNone(initial) + frames
    ensures ok ==> appender.added == OrNone(initial) + frames && (nRows > 0 ==> appender.completed)
    ensures appender != null && appender.completed ==> nRows > 0
    ensures ok <==> appender != null && appender.refused == old(appender.refused)
  {
    if appender == null {
      return -1, -1, false;
    }
    nFrames, nRows := 0, 0;
    if initial.Some? {
      nFrames, nRows := 1, initial.value.rows;
      assert [initial.value][..0] == [];
    }
    for i := 0 to |frames|
      invariant appender.added == OrNone(initial) + frames[..i] && !appender.completed
      invariant appender.refused == old(appender.refused)
      invariant nFrames == |appender.added| && nRows == Rows(appender.added)
    {
      ghost var was := appender.added;
      ok := appender.Add(frames[i]);
      if !ok {
        return;
      }
      assert appender.added[..|was|] == was;
      assert frames[..i + 1] == frames[..i] + [frames[i]];
      nFrames, nRows := nFrames + 1, nRows + frames[i].rows;
    }
    assert frames[..|frames|] == frames;
    ok := true;
    if nRows > 0 {
      ok := appender.WaitForComplete();
    }
  }

  // --- Both sides, step by step ------------------------------------------------------------------------

  datatype Outcome = Response(frames: int, rows: int) | WriteError | StreamError | NilFrameError

  datatype Producer = Check | Recv | Sending(frame: Frame) | Close | Join | Returned(outcome: Outcome)

  /** What `API.Write` gives back. */
  datatype Written = Written(frames: int, rows: int, failed: bool)

  datatype Consumer = Start | Range | AddFrame(frame: Frame) | Wait | Finish(failed: bool) | Closing | Ended

  datatype State = State(
    pos: nat, producer: Producer,            // messages received
    ch: seq<Frame>, closed: bool,
    consumer: Consumer, started: bool, added: seq<Frame>, rejected: seq<Frame>,
    nFrames: int, nRows: int, completed: bool,
    shared: Option<Written>, done: bool)     // the variables both sides see, and the done channel

  const INIT := State(0, Check, [], false, Start, false, [], [], 0, 0, false, None, false)

  const CAPACITY := 1

  /** One step of either side; `ok` is what the backend answers. */
  datatype Event =
    | PCheck | PRecv | PSend | PClose | PJoin
    | CStart(ok: bool) | CRange | CAdd(ok: bool) | CWait(ok: bool) | CFinish | CDone

  predicate Enabled(s: State, e: Event) {
    match e
    case PCheck => s.producer == Check
    case PRecv => s.producer == Recv
    case PSend => s.producer.Sending? && |s.ch| < CAPACITY
    case PClose => s.producer == Close
    case PJoin => s.producer == Join && s.done
    case CStart(_) => s.consumer == Start
    case CRange => s.consumer == Range && (s.ch != [] || s.closed)
    case CAdd(_) => s.consumer.AddFrame?
    case CWait(_) => s.consumer == Wait
    case CFinish => s.consumer.Finish?
    case CDone => s.consumer == Closing
  }

  predicate WriteFailed(s: State) {
    s.shared.Some? && s.shared.value.failed
  }

  function Step(client: Client, s: State, e: Event): State
    requires Enabled(s, e) && s.pos <= |client.stream|
  {
    match e
    case PCheck => s.(producer := if WriteFailed(s) then Close else Recv)
    case PRecv =>
      if s.pos == |client.stream| then
        s.(producer := if client.broken then Returned(StreamError) else Close)
      else
        s.(pos := s.pos + 1,
           producer := match client.stream[s.pos]
             case FrameMessage(frame) => Sending(frame)
             case NilFrame => Returned(NilFrameError))
    case PSend => s.(producer := Check, ch := s.ch + [s.producer.frame])
    case PClose => s.(producer := Join, closed := true)
    case PJoin =>
      s.(producer := Returned(
        match s.shared
        case None => Response(0, 0)
        case Some(written) => if written.failed then WriteError else Response(written.frames, written.rows)))
    case CStart(ok) =>
      var initial := OrNone(client.initial);
      if ok then
        s.(consumer := Range, started := true, added := initial, nFrames := |initial|, nRows := Rows(initial))
      else
        s.(consumer := Finish(true), nFrames := -1, nRows := -1)
    case CRange =>
      if s.ch != [] then s.(consumer := AddFrame(s.ch[0]), ch := s.ch[1..])
      else s.(consumer := if s.nRows > 0 then Wait else Finish(false))
    case CAdd(ok) =>
      var frame := s.consumer.frame;
      if ok then
        s.(consumer := Range, added := s.added + [frame], nFrames := s.nFrames + 1, nRows := s.nRows + frame.rows)
      else
        s.(consumer := Finish(true), rejected := [frame])
    case CWait(ok) => s.(consumer := Finish(!ok), completed := ok)
    case CFinish => s.(consumer := Closing, shared := Some(Written(s.nFrames, s.nRows, s.consumer.failed)))
    case CDone => s.(consumer := Ended, done := true)
  }

  /** The state after a schedule of steps; None if one of them is not possible when its turn comes. */
  function Run(client: Client, events: seq<Event>): (s: Option<State>)
    ensures s.Some? ==> s.value.pos <= |client.stream|
  {
    if events == [] then Some(INIT) else
      var mid, e := Run(client, events[..|events| - 1]), events[|events| - 1];
      if mid.Some? && Enabled(mid.value, e) then Some(Step(client, mid.value, e)) else None
  }

  // --- What every run keeps ------------------------------------------------------------------------------

  /** Frames received but not added, in order: the consumer's, the channel's, the producer's. */
  function Underway(s: State): seq<Frame> {
    Held(s) + s.ch + (if s.producer.Sending? then [s.producer.frame] else [])
  }

  function Held(s: State): seq<Frame> {
    if s.consumer.AddFrame? then [s.consumer.frame] else s.rejected
  }

  /** Nothing is lost, repeated or reordered on the way from the stream to the appender. */
  predicate Accounted(client: Client, s: State)
    requires s.pos <= |client.stream|
  {
    (if s.started then OrNone(client.initial) else []) + FramesIn(client.stream[..s.pos]) == s.added + Underway(s)
  }

  predicate Counted(s: State) {
    if s.started || s.consumer == Start then s.nFrames == |s.added| && s.nRows == Rows(s.added)
    else s.nFrames == s.nRows == -1
  }

  predicate Failing(s: State) {
    s.consumer == Finish(true) || WriteFailed(s)
  }

  predicate Succeeding(s: State) {
    s.consumer == Finish(false) || (s.shared.Some? && !s.shared.value.failed)
  }

  predicate Responded(s: State) {
    s.producer.Returned? && s.producer.outcome.Response?
  }

  /** Who has done what. */
  predicate Plumbed(s: State) {
    && |s.ch| <= CAPACITY
    && (s.started ==> s.consumer != Start)
    && (!s.started ==> s.added == [] && s.rejected == [] && (s.consumer == Start || Failing(s)))
    && (s.closed <==> s.producer == Join || Responded(s) || s.producer == Returned(WriteError))
    && (s.shared.Some? <==> s.consumer == Closing || s.consumer == Ended)
    && (s.done <==> s.consumer == Ended)
    && (s.rejected != [] ==> Failing(s))
  }

  /** A success is reported only after the channel was closed and emptied, and then truthfully. */
  predicate Truthful(s: State) {
    && (s.shared.Some? ==> s.shared.value.frames == s.nFrames && s.shared.value.rows == s.nRows)
    && (s.consumer == Wait || Succeeding(s) ==> s.closed && s.ch == [] && s.rejected == [])
    && (Succeeding(s) && s.nRows > 0 ==> s.completed)
    && (s.consumer == Wait || s.completed ==> s.nRows > 0)
    && (s.completed ==> s.consumer.Finish? || s.shared.Some?)
    && (Responded(s) ==> Succeeding(s) && s.producer.outcome == Response(s.nFrames, s.nRows))
    && (s.producer == Returned(WriteError) ==> WriteFailed(s))
  }

  predicate Wired(s: State) {
    Plumbed(s) && Truthful(s)
  }

  /** The producer stops before the end of the stream only for an error. */
  ghost predicate Read(client: Client, s: State) {
    && s.pos <= |client.stream|
    && (s.producer == Close || s.closed ==> WriteFailed(s) || (s.pos == |client.stream| && !client.broken))
    && (s.producer == Returned(StreamError) ==> client.broken && s.pos == |client.stream|)
    && (s.producer == Returned(NilFrameError) <==> s.pos > 0 && client.stream[s.pos - 1] == NilFrame)
    && (forall i :: 0 <= i < s.pos - 1 ==> client.stream[i] != NilFrame)
  }

  ghost predicate Invariant(client: Client, s: State) {
    Wired(s) && Read(client, s) && Accounted(client, s) && Counted(s)
  }

  lemma ReceivedSnoc(client: Client, pos: nat)
    requires pos < |client.stream|
    ensures FramesIn(client.stream[..pos + 1]) == FramesIn(client.stream[..pos]) + FrameOf(client.stream[pos])
  {
    assert client.stream[..pos + 1][..pos] == client.stream[..pos];
  }

  lemma RowsSnoc(frames: seq<Frame>, frame: Frame)
    ensures Rows(frames + [frame]) == Rows(frames) + frame.rows
  {
    assert (frames + [frame])[..|frames|] == frames;
  }

  lemma RecvAccounts(client: Client, s: State)
    requires s.pos < |client.stream| && s.producer == Recv && Accounted(client, s)
    ensures Accounted(client, Step(client, s, PRecv))
  {
    var t, more := Step(client, s, PRecv), FrameOf(client.stream[s.pos]);
    ReceivedSnoc(client, s.pos);
    ReceivingMoves(client, s);
    hide FramesIn, FrameOf, Underway, Step;
    var initial, received := if s.started then OrNone(client.initial) else [], FramesIn(client.stream[..s.pos]);
    Regroup(initial, received, s.added, Underway(s), more);
  }

  lemma ReceivingMoves(client: Client, s: State)
    requires s.pos < |client.stream| && s.producer == Recv
    ensures var t := Step(client, s, PRecv);
      && Underway(t) == Underway(s) + FrameOf(client.stream[s.pos])
      && t.pos == s.pos + 1 && t.started == s.started && t.added == s.added
  {
    hide FramesIn;
  }

  lemma Regroup(a: seq<Frame>, b: seq<Frame>, c: seq<Frame>, d: seq<Frame>, more: seq<Frame>)
    requires a + b == c + d
    ensures a + (b + more) == c + (d + more)
  {
    assert a + (b + more) == a + b + more == c + d + more == c + (d + more);
  }

  lemma SendMoves(client: Client, s: State)
    requires s.pos <= |client.stream| && Enabled(s, PSend)
    ensures Underway(Step(client, s, PSend)) == Underway(s)
  {
    assert Held(s) + (s.ch + [s.producer.frame]) + [] == Held(s) + s.ch + [s.producer.frame];
  }

  lemma RangeMoves(client: Client, s: State)
    requires s.pos <= |client.stream| && Wired(s) && Enabled(s, CRange)
    ensures Underway(Step(client, s, CRange)) == Underway(s)
  {
    if s.ch != [] {
      var f, c := s.ch[0], s.ch[1..];
      assert s.ch == [f] + c && s.rejected == [];
    }
  }

  lemma AddMoves(client: Client, s: State, ok: bool)
    requires s.pos <= |client.stream| && Wired(s) && Enabled(s, CAdd(ok))
    ensures var t := Step(client, s, CAdd(ok)); t.added + Underway(t) == s.added + Underway(s)
  {
    hide Rows;
    if ok {
      var rest := s.ch + (if s.producer.Sending? then [s.producer.frame] else []);
      var t := Step(client, s, CAdd(ok));
      assert Underway(s) == [s.consumer.frame] + rest;
      assert Underway(t) == rest;
    }
  }

  lemma StepAccounts(client: Client, s: State, e: Event)
    requires s.pos <= |client.stream| && Wired(s) && Accounted(client, s) && Enabled(s, e)
    ensures Accounted(client, Step(client, s, e))
  {
    hide FramesIn, Rows;
    match e
    case PRecv =>
      if s.pos < |client.stream| {
        RecvAccounts(client, s);
      }
    case PSend => SendMoves(client, s);
    case CRange => RangeMoves(client, s);
    case CAdd(ok) => AddMoves(client, s, ok);
    case CStart(ok) =>
      assert [] + FramesIn(client.stream[..s.pos]) == FramesIn(client.stream[..s.pos]);
      assert [] + Underway(s) == Underway(s) == Underway(Step(client, s, e));
    case _ =>
  }

  lemma StepCounts(client: Client, s: State, e: Event)
    requires s.pos <= |client.stream| && Wired(s) && Counted(s) && Enabled(s, e)
    ensures Counted(Step(client, s, e))
  {
    hide FramesIn, Rows;
    if e.CAdd? {
      RowsSnoc(s.added, s.consumer.frame);
    }
  }

  lemma StepPlumbs(client: Client, s: State, e: Event)
    requires s.pos <= |client.stream| && Wired(s) && Enabled(s, e)
    ensures Plumbed(Step(client, s, e))
  {
    hide FramesIn, Rows;
  }

  lemma StepIsTruthful(client: Client, s: State, e: Event)
    requires s.pos <= |client.stream| && Wired(s) && Counted(s) && Enabled(s, e)
    ensures Truthful(Step(client, s, e))
  {
    hide FramesIn, Rows;
  }

  lemma StepReads(client: Client, s: State, e: Event)
    requires Wired(s) && Read(client, s) && Enabled(s, e)
    ensures Read(client, Step(client, s, e))
  {
    hide FramesIn, Rows;
  }

  lemma StepKeepsInvariant(client: Client, s: State, e: Event)
    requires Invariant(client, s) && Enabled(s, e)
    ensures Invariant(client, Step(client, s, e))
  {
    StepAccounts(client, s, e);
    StepCounts(client, s, e);
    StepPlumbs(client, s, e);
    StepIsTruthful(client, s, e);
    StepReads(client, s, e);
    hide Step, Plumbed, Truthful, Read, Accounted, Counted;
  }

  /** Every reachable state, whatever the interleaving and whatever the backend answers. */
  lemma {:induction false} ReachableInvariant(client: Client, events: seq<Event>, s: State)
    requires Run(client, events) == Some(s)
    ensures Invariant(client, s)
    decreases |events|
  {
    hide Invariant;
    if events == [] {
      Initially(client);
    } else {
      var before := events[..|events| - 1];
      var mid := Run(client, before).value;
      ReachableInvariant(client, before, mid);
      StepKeepsInvariant(client, mid, events[|events| - 1]);
    }
  }

  lemma Initially(client: Client)
    ensures Invariant(client, INIT)
  {
  }

  /** While the write runs, the frames received so far are the added ones and then the ones under way. */
  lemma NothingLost(client: Client, events: seq<Event>, s: State)
    requires Run(client, events) == Some(s) && s.started
    ensures OrNone(client.initial) + FramesIn(client.stream[..s.pos]) == s.added + Underway(s)
  {
    ReachableInvariant(client, events, s);
  }

  // --- What a response means -------------------------------------------------------------------------------

  lemma AtTheEnd(client: Client, s: State)
    requires Invariant(client, s) && Responded(s)
    ensures s.started && Underway(s) == [] && s.pos == |client.stream| && !client.broken && NilFrame !in client.stream
    ensures s.producer.outcome == Response(|s.added|, Rows(s.added)) && (Rows(s.added) > 0 <==> s.completed)
  {
    hide FramesIn, Rows, Accounted;
    assert Succeeding(s) && s.closed;
    assert forall i :: 0 <= i < |client.stream| ==> client.stream[i] != NilFrame;
  }

  /** A response counts every frame of the request and of the stream, all added in order and completed. */
  lemma ResponseMeansAllAdded(client: Client, events: seq<Event>, s: State)
    requires Run(client, events) == Some(s) && Responded(s)
    ensures s.added == OrNone(client.initial) + FramesIn(client.stream)
    ensures s.producer.outcome == Response(|s.added|, Rows(s.added))
    ensures Rows(s.added) > 0 <==> s.completed
    ensures !client.broken && NilFrame !in client.stream
  {
    ReachableInvariant(client, events, s);
    AtTheEnd(client, s);
    hide FramesIn, Rows, Run, Wired, Read, Counted, Underway;
    assert client.stream[..s.pos] == client.stream;
  }

  predicate Refusal(e: Event) {
    e == CStart(false) || e == CAdd(false) || e == CWait(false)
  }

  predicate Refused(events: seq<Event>) {
    exists i :: 0 <= i < |events| && Refusal(events[i])
  }

  lemma StepFails(client: Client, s: State, e: Event)
    requires Invariant(client, s) && Enabled(s, e)
    ensures Failing(Step(client, s, e)) <==> Failing(s) || Refusal(e)
  {
    hide FramesIn, Rows, Accounted, Counted, Read;
  }

  /** The write counts as failed exactly when the backend refused something. */
  lemma {:induction false} FailingIsRefused(client: Client, events: seq<Event>, s: State)
    requires Run(client, events) == Some(s)
    ensures Failing(s) <==> Refused(events)
    decreases |events|
  {
    hide Invariant, Enabled, Step, Refusal;
    if events != [] {
      var n := |events| - 1;
      var mid := Run(client, events[..n]).value;
      FailingIsRefused(client, events[..n], mid);
      ReachableInvariant(client, events[..n], mid);
      StepFails(client, mid, events[n]);
    }
  }

  lemma StepAfterFailure(client: Client, s: State, e: Event)
    requires Invariant(client, s) && Enabled(s, e) && WriteFailed(s)
    ensures var t := Step(client, s, e);
      WriteFailed(t) && Reads(t) <= Reads(s)
  {
    hide FramesIn, Rows, Accounted, Counted, Read;
  }

  /** Messages received, the one counted that the producer has set out to receive. */
  function Reads(s: State): nat {
    s.pos + if s.producer == Recv then 1 else 0
  }

  /** Once the write has failed, the handler receives no more than the message it has set out to receive. */
  lemma {:induction false} FailureStopsReading(client: Client, before: seq<Event>, after: seq<Event>, s: State, t: State)
    requires Run(client, before) == Some(s) && WriteFailed(s)
    requires Run(client, before + after) == Some(t)
    ensures WriteFailed(t) && t.pos <= s.pos + (if s.producer == Recv then 1 else 0)
    ensures Reads(t) <= Reads(s)
    decreases |after|
  {
    hide Step, Enabled, Invariant, WriteFailed;
    if after == [] {
      assert before + after == before;
    } else {
      var n := |after| - 1;
      assert (before + after)[..|before + after| - 1] == before + after[..n];
      var mid := Run(client, before + after[..n]).value;
      FailureStopsReading(client, before, after[..n], s, mid);
      ReachableInvariant(client, before + after[..n], mid);
      StepAfterFailure(client, mid, after[n]);
    }
  }

  // --- How runs end ---------------------------------------------------------------------------------------

  /** An upper bound on the steps that are left. */
  function StepsLeft(client: Client, s: State): nat
    requires s.pos <= |client.stream|
  {
    ProducerLeft(s.producer, |client.stream| - s.pos) + 2 * |s.ch| + ConsumerLeft(s.consumer)
  }

  function ProducerLeft(p: Producer, unread: nat): nat {
    match p
    case Check => 6 * unread + 5
    case Recv => 6 * unread + 4
    case Sending(_) => 6 * unread + 9
    case Close => 3
    case Join => 2
    case Returned(_) => 0
  }

  function ConsumerLeft(c: Consumer): nat {
    match c
    case Start => 6
    case Range => 5
    case AddFrame(_) => 6
    case Wait => 4
    case Finish(_) => 3
    case Closing => 2
    case Ended => 0
  }

  lemma EveryStepCounts(client: Client, s: State, e: Event)
    requires s.pos <= |client.stream| && Enabled(s, e)
    ensures StepsLeft(client, Step(client, s, e)) < StepsLeft(client, s)
  {
    hide Step, StepsLeft;
    if e.PRecv? {
      ReceivingCounts(client, s);
    } else if e.PCheck? || e.PSend? || e.PClose? || e.PJoin? {
      ProducingCounts(client, s, e);
    } else {
      ConsumingCounts(client, s, e);
    }
  }

  lemma ProducingCounts(client: Client, s: State, e: Event)
    requires s.pos <= |client.stream| && Enabled(s, e) && (e.PCheck? || e.PSend? || e.PClose? || e.PJoin?)
    ensures StepsLeft(client, Step(client, s, e)) < StepsLeft(client, s)
  {
    hide FramesIn, Rows, OrNone, ConsumerLeft;
  }

  lemma ConsumingCounts(client: Client, s: State, e: Event)
    requires s.pos <= |client.stream| && Enabled(s, e) && !(e.PCheck? || e.PRecv? || e.PSend? || e.PClose? || e.PJoin?)
    ensures StepsLeft(client, Step(client, s, e)) < StepsLeft(client, s)
  {
    hide FramesIn, Rows, OrNone, ProducerLeft;
  }

  lemma ReceivingCounts(client: Client, s: State)
    requires s.pos <= |client.stream| && s.producer == Recv
    ensures StepsLeft(client, Step(client, s, PRecv)) < StepsLeft(client, s)
  {
  }

  /** No schedule runs for ever: with n messages there are at most 6n + 11 steps, whatever fails. */
  lemma {:induction false} RunsEnd(client: Client, events: seq<Event>, s: State)
    requires Run(client, events) == Some(s)
    ensures |events| + StepsLeft(client, s) <= 6 * |client.stream| + 11
    decreases |events|
  {
    hide Enabled, Step;
    if events != [] {
      var n := |events| - 1;
      var mid := Run(client, events[..n]).value;
      RunsEnd(client, events[..n], mid);
      EveryStepCounts(client, mid, events[n]);
      hide StepsLeft;
    }
  }

  /** No step is possible. */
  ghost predicate Stuck(s: State) {
    forall e :: !Enabled(s, e)
  }

  /** The handler blocks on a channel that nobody reads any more. */
  predicate Blocked(s: State) {
    s.producer.Sending? && |s.ch| == CAPACITY && s.consumer == Ended && WriteFailed(s)
  }

  /** The handler has returned early, and the consumer waits for a channel that is never closed. */
  predicate Abandoned(s: State) {
    (s.producer == Returned(StreamError) || s.producer == Returned(NilFrameError)) && s.consumer == Range && s.ch == []
  }

  predicate Over(s: State) {
    s.producer.Returned? && s.consumer == Ended
  }

  lemma StuckMeans(s: State)
    requires Wired(s) && Stuck(s)
    ensures Over(s) || Blocked(s) || Abandoned(s)
  {
    assert !Enabled(s, PCheck) && !Enabled(s, PRecv) && !Enabled(s, PSend) && !Enabled(s, PClose) && !Enabled(s, PJoin);
    assert !Enabled(s, CStart(true)) && !Enabled(s, CRange) && !Enabled(s, CAdd(true)) && !Enabled(s, CWait(true));
    assert !Enabled(s, CFinish) && !Enabled(s, CDone);
    hide Stuck, Enabled;
  }

  /** A run can stop in three ways only, and does stop there. */
  lemma StuckIff(client: Client, events: seq<Event>, s: State)
    requires Run(client, events) == Some(s)
    ensures Stuck(s) <==> Over(s) || Blocked(s) || Abandoned(s)
  {
    ReachableInvariant(client, events, s);
    if Stuck(s) {
      StuckMeans(s);
    } else {
      hide FramesIn, Rows, Run, Accounted, Counted, Read;
    }
  }

  /** Without a refusal the handler always returns, and it responds exactly when the stream is well formed. */
  lemma UnrefusedRunsReturn(client: Client, events: seq<Event>, s: State)
    requires Run(client, events) == Some(s) && Stuck(s) && !Refused(events)
    ensures s.producer.Returned?
    ensures Responded(s) <==> !client.broken && NilFrame !in client.stream
  {
    StuckIff(client, events, s);
    FailingIsRefused(client, events, s);
    ReachableInvariant(client, events, s);
    if Responded(s) {
      AtTheEnd(client, s);
    }
    hide FramesIn, Rows, Run, Accounted, Counted, Wired;
  }

  /** A response is never given when the backend refused something. */
  lemma RefusedRunsNeverRespond(client: Client, events: seq<Event>, s: State)
    requires Run(client, events) == Some(s) && Refused(events)
    ensures !Responded(s)
  {
    FailingIsRefused(client, events, s);
    ReachableInvariant(client, events, s);
    hide FramesIn, Rows, Run, Accounted, Counted, Read;
  }

  lemma OneMore(client: Client, events: seq<Event>, s: State, e: Event)
    requires Run(client, events) == Some(s) && Enabled(s, e)
    ensures Run(client, events + [e]) == Some(Step(client, s, e))
  {
    assert (events + [e])[..|events|] == events;
  }

  /** Two frames are received while the backend refuses the request. */
  lemma TwoFramesBlock(client: Client) returns (events: seq<Event>, s: State)
    requires |client.stream| >= 2 && client.stream[0].FrameMessage? && client.stream[1].FrameMessage?
    ensures Run(client, events) == Some(s) && Blocked(s)
  {
    hide FramesIn, Rows, Run;
    events, s := FirstFrame(client);
    OneMore(client, events, s, PCheck);
    events, s := events + [PCheck], Step(client, s, PCheck);
    OneMore(client, events, s, PRecv);
    events, s := events + [PRecv], Step(client, s, PRecv);
    OneMore(client, events, s, CStart(false));
    events, s := events + [CStart(false)], Step(client, s, CStart(false));
    OneMore(client, events, s, CFinish);
    events, s := events + [CFinish], Step(client, s, CFinish);
    OneMore(client, events, s, CDone);
    events, s := events + [CDone], Step(client, s, CDone);
  }

  lemma FirstFrame(client: Client) returns (events: seq<Event>, s: State)
    requires |client.stream| >= 2 && client.stream[0].FrameMessage?
    ensures Run(client, events) == Some(s) && s == INIT.(pos := 1, ch := [client.stream[0].frame])
  {
    events, s := [], INIT;
    OneMore(client, events, s, PCheck);
    events, s := events + [PCheck], Step(client, s, PCheck);
    OneMore(client, events, s, PRecv);
    events, s := events + [PRecv], Step(client, s, PRecv);
    OneMore(client, events, s, PSend);
    events, s := events + [PSend], Step(client, s, PSend);
  }

  lemma StepKeepsInitial(client: Client, s: State, e: Event)
    requires s.pos <= |client.stream| && Enabled(s, e) && (s.started ==> OrNone(client.initial) <= s.added)
    ensures var t := Step(client, s, e); t.started ==> OrNone(client.initial) <= t.added
  {
    hide FramesIn, Rows;
  }

  lemma {:induction false} InitialIsKept(client: Client, events: seq<Event>, s: State)
    requires Run(client, events) == Some(s) && s.started
    ensures OrNone(client.initial) <= s.added
    decreases |events|
  {
    hide Step, Enabled, OrNone;
    var n := |events| - 1;
    var mid := Run(client, events[..n]).value;
    if mid.started {
      InitialIsKept(client, events[..n], mid);
    }
    StepKeepsInitial(client, mid, events[n]);
  }

  lemma {:induction false} OneFrameEach(messages: seq<Message>)
    ensures |FramesIn(messages)| <= |messages|
  {
    if messages != [] {
      OneFrameEach(messages[..|messages| - 1]);
    }
  }

  /** The handler of a client can block for ever exactly when its first two messages carry frames. */
  lemma BlocksIff(client: Client)
    ensures (exists events :: Run(client, events).Some? && Blocked(Run(client, events).value)) <==>
            |client.stream| >= 2 && client.stream[0].FrameMessage? && client.stream[1].FrameMessage?
  {
    if |client.stream| >= 2 && client.stream[0].FrameMessage? && client.stream[1].FrameMessage? {
      var events, s := TwoFramesBlock(client);
    }
    forall events | Run(client, events).Some? && Blocked(Run(client, events).value)
      ensures |client.stream| >= 2 && client.stream[0].FrameMessage? && client.stream[1].FrameMessage?
    {
      BlockedHasTwoFrames(client, events, Run(client, events).value);
    }
  }

  lemma BlockedHasTwoFrames(client: Client, events: seq<Event>, s: State)
    requires Run(client, events) == Some(s) && Blocked(s)
    ensures |client.stream| >= 2 && client.stream[0].FrameMessage? && client.stream[1].FrameMessage?
  {
    hide Run, Accounted, Counted, Wired;
    ReachableInvariant(client, events, s);
    if s.started {
      InitialIsKept(client, events, s);
    }
    TwoReceived(client, s);
    assert client.stream[0] != NilFrame && client.stream[1] != NilFrame;
  }

  lemma TwoReceived(client: Client, s: State)
    requires s.pos <= |client.stream| && Accounted(client, s) && Blocked(s)
    requires s.started ==> OrNone(client.initial) <= s.added
    ensures s.pos >= 2
  {
    hide FramesIn, OrNone;
    var initial, received := if s.started then OrNone(client.initial) else [], FramesIn(client.stream[..s.pos]);
    OneFrameEach(client.stream[..s.pos]);
    assert |initial| + |received| == |s.added| + |Underway(s)|;
  }
}
