/**
  The asynchronous log handler (log/handler.go:17-113) as a transition system.

  Every call of Log, Flush or Close is a process of its own, named by a number that is used once; the
  entry of a Log call goes by the number of the call. Methods have value receivers, so each call locks
  and tests a copy of mu and closed: nothing here depends on either. What is shared is the four channels
  and the run goroutine. An unbuffered send and its receive are one step of both sides; a send to a
  closed channel, or closing it again, ends the program.
 */
module AsyncLog {

  type Call = nat

  datatype Stage =
    | LogStarted | LogSent | LogDone
    | FlushStarted | FlushWaiting | FlushWoken | FlushDone
    | CloseStarted | CloseWaiting | CloseAcked | CloseClosing | CloseDone

  /** Where the run goroutine is; the Closing... stages are lines 106 to 109. */
  datatype Run =
    | Selecting | Handling(entry: Call) | Checking | Flushing | Waking
    | ClosingFlush | ClosingFlushWait | ClosingQueue | Acking | Stopped

  datatype Event =
    | LogCalled(call: Call) | Sent(call: Call) | LogReturned(call: Call)
    | FlushCalled(call: Call) | FlushReturned(call: Call)
    | CloseCalled(call: Call)
    | Handled(call: Call) | HandlerFlushed | HandlerClosed(call: Call)

  datatype State = State(
    capacity: nat, queue: seq<Call>,
    queueClosed: bool, flushClosed: bool, flushWaitClosed: bool, stopClosed: bool,
    run: Run, flush: bool, stop: bool,
    calls: map<Call, Stage>, trace: seq<Event>, crashed: bool)

  function Init(capacity: nat): State {
    State(capacity, [], false, false, false, false, Selecting, false, false, map[], [], false)
  }

  datatype Action =
    | CallLog(c: Call) | CallFlush(c: Call) | CallClose(c: Call)
    | SendEntry(c: Call)       // a.queue <- e into the buffer
    | HandOver(c: Call)        // the same without a buffer, straight to run
    | ReturnLog(c: Call)
    | SendFlush(c: Call)       // a.flush <- and case <-a.flush
    | Wake(c: Call)            // a.flushWait <- and <-a.flushWait
    | WakeByClose(c: Call)     // <-a.flushWait on the closed channel
    | ReturnFlush(c: Call)
    | SendStop(c: Call)        // a.stop <- and case <-a.stop
    | SendStopTo(c: Call, d: Call)  // a.stop <- of one closer and <-a.stop of another
    | Acknowledge(c: Call)     // a.stop <- of run and <-a.stop of a closer
    | AcknowledgeByClose(c: Call)
    | CloseStop(c: Call) | CloseHandler(c: Call)
    | ReceiveEntry | HandleEntry | ReceiveClosedStop | Check | FlushHandler
    | CloseFlush | CloseFlushWait | CloseQueue | AcknowledgeCrash

  predicate At(s: State, c: Call, stage: Stage) {
    c in s.calls && s.calls[c] == stage
  }

  predicate Enabled(s: State, a: Action) {
    match a
    case CallLog(c) => c !in s.calls
    case CallFlush(c) => c !in s.calls
    case CallClose(c) => c !in s.calls
    case SendEntry(c) => At(s, c, LogStarted) && (s.queueClosed || |s.queue| < s.capacity)
    case HandOver(c) => At(s, c, LogStarted) && !s.queueClosed && s.capacity == 0 && s.run.Selecting?
    case ReturnLog(c) => At(s, c, LogSent)
    case SendFlush(c) => At(s, c, FlushStarted) && (s.flushClosed || s.run.Selecting?)
    case Wake(c) => At(s, c, FlushWaiting) && s.run.Waking?
    case WakeByClose(c) => At(s, c, FlushWaiting) && s.flushWaitClosed
    case ReturnFlush(c) => At(s, c, FlushWoken)
    case SendStop(c) => At(s, c, CloseStarted) && (s.stopClosed || s.run.Selecting?)
    case SendStopTo(c, d) => At(s, c, CloseStarted) && At(s, d, CloseWaiting) && !s.stopClosed
    case Acknowledge(c) => At(s, c, CloseWaiting) && s.run.Acking? && !s.stopClosed
    case AcknowledgeByClose(c) => At(s, c, CloseWaiting) && s.stopClosed
    case CloseStop(c) => At(s, c, CloseAcked)
    case CloseHandler(c) => At(s, c, CloseClosing)
    case ReceiveEntry => s.run.Selecting? && |s.queue| > 0
    case ReceiveClosedStop => s.run.Selecting? && s.stopClosed
    case HandleEntry => s.run.Handling?
    case Check => s.run.Checking?
    case FlushHandler => s.run.Flushing?
    case CloseFlush => s.run.ClosingFlush?
    case CloseFlushWait => s.run.ClosingFlushWait?
    case CloseQueue => s.run.ClosingQueue?
    case AcknowledgeCrash => s.run.Acking? && s.stopClosed
  }

  /** A send on a closed channel, or closing it twice. */
  predicate Crashes(s: State, a: Action) {
    match a
    case SendEntry(_) => s.queueClosed
    case SendFlush(_) => s.flushClosed
    case SendStop(_) => s.stopClosed
    case CloseStop(_) => s.stopClosed
    case AcknowledgeCrash => true
    case _ => false
  }

  /** Where run goes, with flush and stop as they were when it looked at them. */
  function RunAfter(s: State, a: Action): Run {
    match a
    case HandOver(c) => Handling(c)
    case ReceiveEntry => if |s.queue| > 0 then Handling(s.queue[0]) else s.run
    case SendFlush(_) => Checking
    case SendStop(_) => Checking
    case ReceiveClosedStop => Checking
    case HandleEntry => Checking
    case Check =>
      if s.flush then (if |s.queue| == 0 then Flushing else Selecting)
      else if s.stop && |s.queue| == 0 then ClosingFlush
      else Selecting
    case FlushHandler => Waking
    case Wake(_) => Selecting
    case CloseFlush => ClosingFlushWait
    case CloseFlushWait => ClosingQueue
    case CloseQueue => Acking
    case Acknowledge(_) => Stopped
    case _ => s.run
  }

  function QueueAfter(s: State, a: Action): seq<Call> {
    match a
    case SendEntry(c) => s.queue + [c]
    case ReceiveEntry => if |s.queue| > 0 then s.queue[1..] else s.queue
    case _ => s.queue
  }

  /** The calls that the action moves on, and to where. */
  function Moves(a: Action): map<Call, Stage> {
    match a
    case CallLog(c) => map[c := LogStarted]
    case CallFlush(c) => map[c := FlushStarted]
    case CallClose(c) => map[c := CloseStarted]
    case SendEntry(c) => map[c := LogSent]
    case HandOver(c) => map[c := LogSent]
    case ReturnLog(c) => map[c := LogDone]
    case SendFlush(c) => map[c := FlushWaiting]
    case Wake(c) => map[c := FlushWoken]
    case WakeByClose(c) => map[c := FlushWoken]
    case ReturnFlush(c) => map[c := FlushDone]
    case SendStop(c) => map[c := CloseWaiting]
    case SendStopTo(c, d) => map[d := CloseAcked, c := CloseWaiting]
    case Acknowledge(c) => map[c := CloseAcked]
    case AcknowledgeByClose(c) => map[c := CloseAcked]
    case CloseStop(c) => map[c := CloseClosing]
    case CloseHandler(c) => map[c := CloseDone]
    case _ => map[]
  }

  /** The event, if any, that the action adds to the trace. */
  function Emits(s: State, a: Action): seq<Event> {
    match a
    case CallLog(c) => [LogCalled(c)]
    case CallFlush(c) => [FlushCalled(c)]
    case CallClose(c) => [CloseCalled(c)]
    case SendEntry(c) => [Sent(c)]
    case HandOver(c) => [Sent(c)]
    case ReturnLog(c) => [LogReturned(c)]
    case ReturnFlush(c) => [FlushReturned(c)]
    case HandleEntry => if s.run.Handling? then [Handled(s.run.entry)] else []
    case FlushHandler => [HandlerFlushed]
    case CloseHandler(c) => [HandlerClosed(c)]
    case _ => []
  }

  datatype Successor = Blocked | Next(state: State)

  /** Blocked when the action cannot be taken. */
  function Step(s: State, a: Action): Successor {
    if s.crashed || !Enabled(s, a) then Blocked
    else if Crashes(s, a) then Next(s.(crashed := true))
    else Next(Effect(s, a))
  }

  function Effect(s: State, a: Action): State {
    State(
      s.capacity,
      QueueAfter(s, a),
      s.queueClosed || a.CloseQueue?,
      s.flushClosed || a.CloseFlush?,
      s.flushWaitClosed || a.CloseFlushWait?,
      s.stopClosed || a.CloseStop?,
      RunAfter(s, a),
      (s.flush || a.SendFlush?) && !a.FlushHandler?,
      s.stop || a.SendStop? || a.ReceiveClosedStop?,
      s.calls + Moves(a),
      s.trace + Emits(s, a),
      s.crashed)
  }

  /** The state after a whole interleaving, Blocked when some action of it could not be taken. */
  function After(capacity: nat, actions: seq<Action>): Successor {
    if actions == [] then Next(Init(capacity))
    else
      match After(capacity, actions[..|actions| - 1])
      case Blocked => Blocked
      case Next(s) => Step(s, actions[|actions| - 1])
  }

  // ----- first-in first-out -----

  function SentCalls(trace: seq<Event>): seq<Call> {
    if trace == [] then []
    else
      var e := trace[|trace| - 1];
      SentCalls(trace[..|trace| - 1]) + if e.Sent? then [e.call] else []
  }

  function HandledCalls(trace: seq<Event>): seq<Call> {
    if trace == [] then []
    else
      var e := trace[|trace| - 1];
      HandledCalls(trace[..|trace| - 1]) + if e.Handled? then [e.call] else []
  }

  function InHand(s: State): seq<Call> {
    if s.run.Handling? then [s.run.entry] else []
  }

  ghost predicate Fifo(s: State) {
    HandledCalls(s.trace) + InHand(s) + s.queue == SentCalls(s.trace)
  }

  lemma TraceExtends(trace: seq<Event>, e: Event)
    ensures SentCalls(trace + [e]) == SentCalls(trace) + if e.Sent? then [e.call] else []
    ensures HandledCalls(trace + [e]) == HandledCalls(trace) + if e.Handled? then [e.call] else []
  {
    assert (trace + [e])[..|trace|] == trace;
  }

  /** Only three actions change what run holds. */
  lemma HandMoves(s: State, a: Action)
    requires Enabled(s, a)
    ensures a.HandOver? ==> !s.run.Handling? && s.capacity == 0 && RunAfter(s, a) == Handling(a.c)
    ensures a.ReceiveEntry? ==> !s.run.Handling? && |s.queue| > 0 && RunAfter(s, a) == Handling(s.queue[0])
    ensures a.HandleEntry? ==> s.run.Handling? && !RunAfter(s, a).Handling?
    ensures !a.HandOver? && !a.ReceiveEntry? && !a.HandleEntry? && !Crashes(s, a) ==>
              if s.run.Handling? then RunAfter(s, a) == s.run else !RunAfter(s, a).Handling?
  {
    hide At;
  }

  lemma QueueMoves(s: State, a: Action)
    requires Enabled(s, a) && !Crashes(s, a)
    ensures a.SendEntry? ==> |s.queue| < s.capacity && QueueAfter(s, a) == s.queue + [a.c]
    ensures a.ReceiveEntry? ==> |s.queue| > 0 && s.queue == [s.queue[0]] + QueueAfter(s, a)
    ensures !a.SendEntry? && !a.ReceiveEntry? ==> QueueAfter(s, a) == s.queue
  {
    hide At, RunAfter;
  }

  /** The entry, if any, that the action sends. */
  lemma SentBy(s: State, a: Action)
    ensures SentCalls(Emits(s, a)) == if a.SendEntry? || a.HandOver? then [a.c] else []
    ensures HandledCalls(Emits(s, a)) == if a.HandleEntry? && s.run.Handling? then [s.run.entry] else []
  {
    hide SentCalls, HandledCalls;
    SentOne(Emits(s, a));
  }

  /** Queue and hand move together with what is emitted. */
  lemma StepQueue(s: State, a: Action)
    requires Step(s, a).Next? && !Crashes(s, a) && |s.queue| <= s.capacity
    ensures var t := Step(s, a).state;
            && |t.queue| <= t.capacity == s.capacity
            && InHand(t) + t.queue ==
               (if a.HandleEntry? then s.queue else InHand(s) + s.queue) + SentCalls(Emits(s, a))
            && (a.HandleEntry? ==> s.run.Handling?)
  {
    hide SentCalls, Emits, Moves, Enabled, Crashes, RunAfter, QueueAfter;
    HandMoves(s, a);
    QueueMoves(s, a);
    SentBy(s, a);
  }

  lemma SentOne(es: seq<Event>)
    requires |es| <= 1
    ensures SentCalls(es) == if es != [] && es[0].Sent? then [es[0].call] else []
    ensures HandledCalls(es) == if es != [] && es[0].Handled? then [es[0].call] else []
  {
  }

  lemma TraceConcat(trace: seq<Event>, es: seq<Event>)
    requires |es| <= 1
    ensures SentCalls(trace + es) == SentCalls(trace) + SentCalls(es)
    ensures HandledCalls(trace + es) == HandledCalls(trace) + HandledCalls(es)
  {
    if es == [] {
      assert trace + es == trace;
    } else {
      assert es[..0] == [];
      assert (trace + es)[..|trace|] == trace;
    }
  }

  lemma FifoMoves(h: seq<Call>, hand: seq<Call>, queue: seq<Call>, hand': seq<Call>, queue': seq<Call>, more: seq<Call>)
    requires hand' + queue' == hand + queue + more
    ensures h + hand' + queue' == h + hand + queue + more
  {
    assert h + (hand' + queue') == h + hand' + queue';
    assert h + (hand + queue + more) == h + hand + queue + more;
  }

  lemma StepKeepsFifo(s: State, a: Action)
    requires Fifo(s) && |s.queue| <= s.capacity && Step(s, a).Next?
    ensures Fifo(Step(s, a).state) && |Step(s, a).state.queue| <= s.capacity == Step(s, a).state.capacity
  {
    hide Enabled, RunAfter, QueueAfter, Moves, Emits, SentCalls, HandledCalls, InHand;
    if Crashes(s, a) {
      CrashKeepsFifo(s);
    } else {
      var t, es := Step(s, a).state, Emits(s, a);
      StepQueue(s, a);
      SentBy(s, a);
      EmitsOne(s, a);
      TraceConcat(s.trace, es);
      var h := HandledCalls(s.trace);
      if a.HandleEntry? {
        HandOf(s);
        assert SentCalls(es) == [];
        assert InHand(t) + t.queue == [] + s.queue + SentCalls(es);
        FifoMoves(h + InHand(s), [], s.queue, InHand(t), t.queue, SentCalls(es));
        assert h + InHand(s) + [] + s.queue + SentCalls(es) == SentCalls(t.trace);
      } else {
        assert HandledCalls(es) == [] && h + [] == h;
        FifoMoves(h, InHand(s), s.queue, InHand(t), t.queue, SentCalls(es));
      }
    }
  }

  lemma CrashKeepsFifo(s: State)
    requires Fifo(s)
    ensures Fifo(s.(crashed := true))
  {
  }

  lemma EmitsOne(s: State, a: Action)
    ensures |Emits(s, a)| <= 1
  {
  }

  lemma HandOf(s: State)
    requires s.run.Handling?
    ensures InHand(s) == [s.run.entry]
  {
  }

  lemma {:induction false} FifoAlways(capacity: nat, actions: seq<Action>)
    requires After(capacity, actions).Next?
    ensures var s := After(capacity, actions).state; Fifo(s) && |s.queue| <= s.capacity == capacity
  {
    if actions != [] {
      FifoAlways(capacity, actions[..|actions| - 1]);
      StepKeepsFifo(After(capacity, actions[..|actions| - 1]).state, actions[|actions| - 1]);
    }
  }

  predicate Finishing(run: Run) {
    run.ClosingFlush? || run.ClosingFlushWait? || run.ClosingQueue? || run.Acking? || run.Stopped?
  }

  ghost predicate Phases(s: State) {
    ClosingPhases(s) && FlushPhases(s)
  }

  ghost predicate ClosingPhases(s: State) {
    && (s.flushWaitClosed ==> (s.run.ClosingQueue? || s.run.Acking? || s.run.Stopped?))
    && (s.flushClosed ==> (s.run.ClosingFlushWait? || s.run.ClosingQueue? || s.run.Acking? || s.run.Stopped?))
    && (s.queueClosed ==> (s.run.Acking? || s.run.Stopped?))
  }

  ghost predicate FlushPhases(s: State) {
    && (Finishing(s.run) ==> !s.flush && s.stop)
    && (s.run.Flushing? ==> s.flush)
    && (s.run.Waking? ==> !s.flush)
  }

  lemma StepKeepsPhases(s: State, a: Action)
    requires Phases(s) && Step(s, a).Next?
    ensures Phases(Step(s, a).state)
  {
    hide ClosingPhases, FlushPhases;
    StepKeepsClosingPhases(s, a);
    StepKeepsFlushPhases(s, a);
  }

  lemma StepKeepsClosingPhases(s: State, a: Action)
    requires ClosingPhases(s) && Step(s, a).Next?
    ensures ClosingPhases(Step(s, a).state)
  {
    hide QueueAfter, Moves, Emits, At;
  }

  lemma StepKeepsFlushPhases(s: State, a: Action)
    requires Phases(s) && Step(s, a).Next?
    ensures FlushPhases(Step(s, a).state)
  {
    hide QueueAfter, Moves, Emits, At;
  }
}

