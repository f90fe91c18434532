/** What Close of the asynchronous handler promises, and when: over every interleaving. */
module AsyncClose {
  import opened AsyncLog
  import opened AsyncBarriers

  function CloseCalls(trace: seq<Event>): nat {
    if trace == [] then 0
    else CloseCalls(trace[..|trace| - 1]) + if trace[|trace| - 1].CloseCalled? then 1 else 0
  }

  lemma {:induction false} ManyClosers(trace: seq<Event>, c: Call, d: Call)
    requires CloseCalled(c) in trace && CloseCalled(d) in trace
    ensures CloseCalls(trace) >= if c == d then 1 else 2
  {
    var k := |trace| - 1;
    var last := trace[k];
    assert trace == trace[..k] + [last];
    if last != CloseCalled(c) && last != CloseCalled(d) {
      ManyClosers(trace[..k], c, d);
    } else if c != d {
      var other := if last == CloseCalled(c) then d else c;
      ManyClosers(trace[..k], other, other);
    }
  }

  /** Close is used by one call only, or there is no buffer. */
  ghost predicate Tame(s: State) {
    s.capacity == 0 || CloseCalls(s.trace) <= 1
  }

  /** The closers have been seen by run only if stop is set; without a buffer run then never selects again. */
  ghost predicate Stopping(s: State) {
    && (s.stopClosed ==> s.stop)
    && (s.stop ==> CloseCalls(s.trace) >= 1)
    && (s.capacity == 0 && s.stop ==> !s.flush && (s.run.Checking? || Finishing(s.run)))
    && (s.capacity == 0 && (s.run.Selecting? || s.run.Handling?) ==> !s.flush)
    && (CloseCalls(s.trace) <= 1 && s.stopClosed ==> s.run.Stopped?)
  }

  predicate PastStart(s: State, d: Call) {
    At(s, d, CloseWaiting) || PastWait(s, d)
  }

  predicate PastWait(s: State, d: Call) {
    At(s, d, CloseAcked) || At(s, d, CloseClosing) || At(s, d, CloseDone)
  }

  ghost predicate CloseWaits(s: State, d: Call) {
    && (PastStart(s, d) ==> s.stop)
    && (CloseCalls(s.trace) <= 1 && InClose(s, d) ==>
          && (PastWait(s, d) ==> s.run.Stopped?)
          && (s.stopClosed ==> At(s, d, CloseClosing) || At(s, d, CloseDone))
          && (Finishing(s.run) ==> Covered(s.trace, CloseCalled(d))))
  }

  lemma CloseCallsExtend(s: State, a: Action)
    ensures CloseCalls(s.trace + Emits(s, a)) == CloseCalls(s.trace) + if a.CallClose? then 1 else 0
  {
    hide CloseCalls;
    var es := Emits(s, a);
    if es == [] {
      assert s.trace + es == s.trace;
    } else {
      CloseCallsOne(s.trace, es[0]);
      assert es == [es[0]];
    }
  }

  lemma CloseCallsOne(trace: seq<Event>, e: Event)
    ensures CloseCalls(trace + [e]) == CloseCalls(trace) + if e.CloseCalled? then 1 else 0
  {
    assert (trace + [e])[..|trace|] == trace;
  }

  lemma CloserCounts(s: State, c: Call, d: Call)
    requires AllKnown(s) && InClose(s, c) && InClose(s, d)
    ensures CloseCalls(s.trace) >= if c == d then 1 else 2
  {
    assert Known(s, c) && Known(s, d);
    ManyClosers(s.trace, c, d);
  }

  /** What the closer steps require. */
  lemma CloserSteps(s: State, a: Action)
    requires Enabled(s, a) && !Crashes(s, a)
    ensures a.SendStop? ==> InClose(s, a.c) && s.run.Selecting? && !s.stopClosed
    ensures a.SendStopTo? ==> InClose(s, a.c) && InClose(s, a.d) && a.c != a.d && At(s, a.d, CloseWaiting)
    ensures a.CloseStop? ==> InClose(s, a.c) && PastWait(s, a.c)
    ensures a.ReceiveClosedStop? ==> s.stopClosed
    ensures a.AcknowledgeByClose? ==> s.stopClosed && At(s, a.c, CloseWaiting)
    ensures a.Acknowledge? ==> !s.stopClosed && At(s, a.c, CloseWaiting)
  {
  }

  lemma StepKeepsStopping(s: State, a: Action)
    requires Stopping(s) && Phases(s) && |s.queue| <= s.capacity && AllKnown(s) && Step(s, a).Next?
    requires a.CloseStop? ==> CloseWaits(s, a.c)
    ensures Stopping(Step(s, a).state)
  {
    hide AllKnown, InClose, PastWait, Covered, QueueAfter, Moves, Emits, CloseCalls;
    if !Crashes(s, a) {
      CloserSteps(s, a);
      CloseCallsExtend(s, a);
      if a.SendStop? || a.CloseStop? { CloserCounts(s, a.c, a.c); }
    }
  }

  lemma StepKeepsCloseWaits(s: State, a: Action, d: Call)
    requires CloseWaits(s, d) && Stopping(s) && Phases(s) && Fifo(s) && AllKnown(s) && Step(s, a).Next?
    requires a.SendStopTo? ==> CloseWaits(s, a.d)
    ensures CloseWaits(Step(s, a).state, d)
  {
    hide CloseWaits;
    if Crashes(s, a) {
      CloseCrashes(s, a, d);
    } else if d in Moves(a) {
      CloseMoves(s, a, d);
    } else {
      CloseStays(s, a, d);
    }
  }

  lemma CloseCrashes(s: State, a: Action, d: Call)
    requires CloseWaits(s, d) && Step(s, a).Next? && Crashes(s, a)
    ensures CloseWaits(Step(s, a).state, d)
  {
    hide Covered, CloseCalls;
  }

  /** Where a Close call is and what that says of stop, after a step that moves it. */
  lemma CloseMovesWhen(s: State, a: Action, d: Call)
    requires Enabled(s, a) && !Crashes(s, a) && d in Moves(a)
    ensures var to := Moves(a)[d];
            && (to == CloseStarted ==> a.CallClose? && d !in s.calls)
            && (to == CloseWaiting ==> At(s, d, CloseStarted) && (a.SendStop? || a.SendStopTo?) && !s.stopClosed)
            && (to == CloseAcked ==>
                  && At(s, d, CloseWaiting)
                  && (|| a.SendStopTo?
                      || (a.Acknowledge? && !s.stopClosed && s.run.Acking?)
                      || (a.AcknowledgeByClose? && s.stopClosed)))
            && (to == CloseClosing ==> At(s, d, CloseAcked) && a.CloseStop?)
            && (to == CloseDone ==> At(s, d, CloseClosing) && a.CloseHandler?)
  {
  }

  lemma CloseMoves(s: State, a: Action, d: Call)
    requires CloseWaits(s, d) && Stopping(s) && Phases(s) && AllKnown(s) && Step(s, a).Next? && !Crashes(s, a) && d in Moves(a)
    requires a.SendStopTo? ==> CloseWaits(s, a.d)
    ensures CloseWaits(Step(s, a).state, d)
  {
    hide AllKnown, Covered, QueueAfter, Moves, Emits, CloseCalls, Enabled, Crashes, Known;
    CloseMovesWhen(s, a, d);
    CloserSteps(s, a);
    CloseCallsExtend(s, a);
    if a.SendStopTo? {
      assert a.c in Moves(a) && a.d in Moves(a) by { SendStopToMoves(a); }
      CloserCounts(s, a.c, a.d);
    }
    if d in s.calls {
      BarriersExtend(s, a, d);
    }
  }

  lemma SendStopToMoves(a: Action)
    requires a.SendStopTo?
    ensures a.c in Moves(a) && a.d in Moves(a)
  {
  }

  /** When run starts to finish, or is stopped, and how stop comes to be closed. */
  lemma StepToFinishing(s: State, a: Action)
    requires Enabled(s, a)
    ensures Finishing(RunAfter(s, a)) ==> Finishing(s.run) || (a.Check? && s.run.Checking? && |s.queue| == 0)
    ensures s.run.Stopped? ==> RunAfter(s, a).Stopped? || a.SendFlush? || a.SendStop?
    ensures (a.SendFlush? || a.SendStop?) && s.run.Stopped? ==> Crashes(s, a)
  {
    hide At;
  }

  lemma CloseStays(s: State, a: Action, d: Call)
    requires CloseWaits(s, d) && Stopping(s) && Phases(s) && Fifo(s) && AllKnown(s)
    requires Step(s, a).Next? && !Crashes(s, a) && d !in Moves(a)
    ensures CloseWaits(Step(s, a).state, d)
  {
    hide AllKnown, Covered, QueueAfter, Moves, Emits, CloseCalls, Enabled, Crashes, Known, RunAfter, Fifo;
    var t := Step(s, a).state;
    if d in s.calls {
      CloserSteps(s, a);
      StepToFinishing(s, a);
      CloseCallsExtend(s, a);
      BarriersExtend(s, a, d);
      if Finishing(t.run) && !Finishing(s.run) {
        IdleCovers(s, CloseCalled(d));
        BarriersExtend(s, a, d);
      }
      if a.CloseStop? && InClose(s, d) {
        assert a.c in Moves(a) by { CloseStopMoves(a); }
        CloserCounts(s, a.c, d);
      }
    }
  }

  lemma CloseStopMoves(a: Action)
    requires a.CloseStop?
    ensures a.c in Moves(a)
  {
  }

  /** Everything about closing that holds in every reachable state. */
  lemma {:induction false} CloseWaitsAlways(capacity: nat, actions: seq<Action>)
    requires After(capacity, actions).Next?
    ensures var s := After(capacity, actions).state; Stopping(s) && forall d :: CloseWaits(s, d)
  {
    hide Step, AllKnown, Phases, Fifo, Stopping, CloseWaits;
    if actions == [] {
      InitStopping(capacity);
    } else {
      var k := |actions| - 1;
      var s := After(capacity, actions[..k]).state;
      CloseWaitsAlways(capacity, actions[..k]);
      KnownAlways(capacity, actions[..k]);
      PhasesAlways(capacity, actions[..k]);
      FifoAlways(capacity, actions[..k]);
      StepKeepsStopping(s, actions[k]);
      forall d ensures CloseWaits(Step(s, actions[k]).state, d) {
        StepKeepsCloseWaits(s, actions[k], d);
      }
    }
  }

  lemma InitStopping(capacity: nat)
    ensures Stopping(Init(capacity)) && forall d :: CloseWaits(Init(capacity), d)
  {
  }

  /** Whenever the wrapped handler is closed, all entries whose Log returned before that Close began are handled. */
  ghost predicate ClosesAfterHandling(trace: seq<Event>, d: Call) {
    forall k :: 0 <= k < |trace| && trace[k] == HandlerClosed(d) ==> Covered(trace[..k], CloseCalled(d))
  }

  lemma ClosesExtend(s: State, a: Action, d: Call)
    requires Step(s, a).Next? && ClosesAfterHandling(s.trace, d)
    requires a == CloseHandler(d) ==> Covered(s.trace, CloseCalled(d))
    ensures ClosesAfterHandling(Step(s, a).state.trace, d)
  {
    hide Covered, Step;
    StepAppends(s, a, d);
    var t := Step(s, a).state.trace;
    forall k | 0 <= k < |t| && t[k] == HandlerClosed(d) ensures Covered(t[..k], CloseCalled(d)) {
      if k < |s.trace| {
        assert t[k] == t[..|s.trace|][k] && t[..k] == s.trace[..k];
      }
    }
  }

  lemma TameCovers(s: State, d: Call)
    requires Tame(s) && Stopping(s) && CloseWaits(s, d) && Fifo(s) && AllKnown(s) && |s.queue| <= s.capacity
    requires At(s, d, CloseClosing)
    ensures Covered(s.trace, CloseCalled(d))
  {
    hide Covered, Fifo, AllKnown, CloseCalls;
    if s.capacity == 0 {
      IdleCovers(s, CloseCalled(d));
    }
  }

  lemma {:induction false} ClosesAlways(capacity: nat, actions: seq<Action>, d: Call)
    requires After(capacity, actions).Next? && Tame(After(capacity, actions).state)
    ensures ClosesAfterHandling(After(capacity, actions).state.trace, d)
  {
    hide Covered, RunAfter, QueueAfter, Moves, Phases, Fifo, AllKnown, Stopping, CloseWaits, CloseCalls;
    if actions != [] {
      var k := |actions| - 1;
      var s, a := After(capacity, actions[..k]).state, actions[k];
      FifoAlways(capacity, actions[..k]);
      CloseCallsExtend(s, a);
      ClosesAlways(capacity, actions[..k], d);
      if a == CloseHandler(d) {
        KnownAlways(capacity, actions[..k]);
        CloseWaitsAlways(capacity, actions[..k]);
        TameCovers(s, d);
      }
      ClosesExtend(s, a, d);
    }
  }

  /** Log c returned, then Close d began, then the wrapped handler was closed for d: entry c had been handled. */
  ghost predicate CloseIsBarrier(trace: seq<Event>) {
    forall i, j, k, c, d ::
      0 <= i < j < k < |trace| && trace[i] == LogReturned(c) && trace[j] == CloseCalled(d) && trace[k] == HandlerClosed(d)
      ==> Handled(c) in trace[..k]
  }

  lemma TameCloseIsBarrier(capacity: nat, actions: seq<Action>)
    requires After(capacity, actions).Next? && Tame(After(capacity, actions).state)
    ensures CloseIsBarrier(After(capacity, actions).state.trace)
  {
    hide After, ReturnedBefore, HandledCalls, Tame;
    var trace := After(capacity, actions).state.trace;
    forall i, j, k, c, d |
      0 <= i < j < k < |trace| && trace[i] == LogReturned(c) && trace[j] == CloseCalled(d) && trace[k] == HandlerClosed(d)
      ensures Handled(c) in trace[..k]
    {
      ClosesAlways(capacity, actions, d);
      var t := trace[..k];
      assert t[i] == trace[i] && t[j] == trace[j];
      ReturnedBeforeAt(t, i, j, c, CloseCalled(d));
      var h := HandledIndex(t, c);
    }
  }

  // ----- and when it promises nothing -----

  lemma AfterOne(capacity: nat, actions: seq<Action>, a: Action) returns (longer: seq<Action>)
    requires After(capacity, actions).Next?
    ensures longer == actions + [a]
    ensures After(capacity, longer) == Step(After(capacity, actions).state, a)
  {
    longer := actions + [a];
    assert longer[..|actions|] == actions;
  }

  lemma DoCallLog(s: State, c: Call)
    requires !s.crashed && c !in s.calls
    ensures Step(s, CallLog(c)) == Next(s.(calls := s.calls[c := LogStarted], trace := s.trace + [LogCalled(c)]))
  {
  }

  lemma DoCallClose(s: State, c: Call)
    requires !s.crashed && c !in s.calls
    ensures Step(s, CallClose(c)) == Next(s.(calls := s.calls[c := CloseStarted], trace := s.trace + [CloseCalled(c)]))
  {
  }

  lemma DoSendEntry(s: State, c: Call)
    requires !s.crashed && At(s, c, LogStarted) && !s.queueClosed && |s.queue| < s.capacity
    ensures Step(s, SendEntry(c)) == Next(s.(queue := s.queue + [c], calls := s.calls[c := LogSent], trace := s.trace + [Sent(c)]))
  {
  }

  lemma DoReturnLog(s: State, c: Call)
    requires !s.crashed && At(s, c, LogSent)
    ensures Step(s, ReturnLog(c)) == Next(s.(calls := s.calls[c := LogDone], trace := s.trace + [LogReturned(c)]))
  {
  }

  lemma DoSendStop(s: State, c: Call)
    requires !s.crashed && At(s, c, CloseStarted) && !s.stopClosed && s.run.Selecting?
    ensures Step(s, SendStop(c)) == Next(s.(stop := true, run := Checking, calls := s.calls[c := CloseWaiting]))
  {
    assert s.trace + [] == s.trace;
  }

  lemma DoSendStopTo(s: State, c: Call, d: Call)
    requires !s.crashed && At(s, c, CloseStarted) && At(s, d, CloseWaiting) && !s.stopClosed
    ensures Step(s, SendStopTo(c, d)) == Next(s.(calls := s.calls[d := CloseAcked][c := CloseWaiting]))
  {
    assert s.trace + [] == s.trace;
  }

  lemma DoCloseStop(s: State, c: Call)
    requires !s.crashed && At(s, c, CloseAcked) && !s.stopClosed
    ensures Step(s, CloseStop(c)) == Next(s.(stopClosed := true, calls := s.calls[c := CloseClosing]))
  {
    assert s.trace + [] == s.trace;
  }

  lemma DoCloseHandler(s: State, c: Call)
    requires !s.crashed && At(s, c, CloseClosing)
    ensures Step(s, CloseHandler(c)) == Next(s.(calls := s.calls[c := CloseDone], trace := s.trace + [HandlerClosed(c)]))
  {
  }

  lemma OneLogged(capacity: nat) returns (actions: seq<Action>)
    requires capacity > 0
    ensures After(capacity, actions).Next?
    ensures var s := After(capacity, actions).state;
            && !s.crashed && s.run.Selecting? && !s.stopClosed && 1 !in s.calls && 2 !in s.calls
            && !s.flush && s.queue == [0]
            && s.trace == [LogCalled(0), Sent(0), LogReturned(0)]
  {
    assert After(capacity, []) == Next(Init(capacity));
    hide After, Step;
    actions := [];
    DoCallLog(After(capacity, actions).state, 0);
    actions := AfterOne(capacity, actions, CallLog(0));
    DoSendEntry(After(capacity, actions).state, 0);
    actions := AfterOne(capacity, actions, SendEntry(0));
    DoReturnLog(After(capacity, actions).state, 0);
    actions := AfterOne(capacity, actions, ReturnLog(0));
  }

  lemma LogThenClosers(capacity: nat) returns (actions: seq<Action>)
    requires capacity > 0
    ensures After(capacity, actions).Next?
    ensures var s := After(capacity, actions).state;
            && !s.crashed && s.run.Selecting? && !s.stopClosed && At(s, 1, CloseStarted) && At(s, 2, CloseStarted)
            && !s.flush && s.queue == [0]
            && s.trace == [LogCalled(0), Sent(0), LogReturned(0), CloseCalled(1), CloseCalled(2)]
  {
    hide After, Step;
    actions := OneLogged(capacity);
    DoCallClose(After(capacity, actions).state, 1);
    actions := AfterOne(capacity, actions, CallClose(1));
    DoCallClose(After(capacity, actions).state, 2);
    actions := AfterOne(capacity, actions, CallClose(2));
  }

  /** With a buffer, a second closer can take the answer meant for the first: it sends its stop to the
      waiting closer instead of to run. Entry 0 is still in the queue when the handler is closed. */
  lemma TwoClosers(capacity: nat) returns (actions: seq<Action>)
    requires capacity > 0
    ensures After(capacity, actions).Next?
    ensures After(capacity, actions).state.trace ==
            [LogCalled(0), Sent(0), LogReturned(0), CloseCalled(1), CloseCalled(2), HandlerClosed(1)]
  {
    hide After, Step;
    actions := LogThenClosers(capacity);
    DoSendStop(After(capacity, actions).state, 1);
    actions := AfterOne(capacity, actions, SendStop(1));
    DoSendStopTo(After(capacity, actions).state, 2, 1);
    actions := AfterOne(capacity, actions, SendStopTo(2, 1));
    DoCloseStop(After(capacity, actions).state, 1);
    actions := AfterOne(capacity, actions, CloseStop(1));
    DoCloseHandler(After(capacity, actions).state, 1);
    actions := AfterOne(capacity, actions, CloseHandler(1));
  }

  lemma TwoClosersBreakIt(trace: seq<Event>)
    requires trace == [LogCalled(0), Sent(0), LogReturned(0), CloseCalled(1), CloseCalled(2), HandlerClosed(1)]
    ensures !CloseIsBarrier(trace)
  {
    assert trace[2] == LogReturned(0) && trace[3] == CloseCalled(1) && trace[5] == HandlerClosed(1);
    assert Handled(0) !in trace[..5];
  }

  lemma TwoClosersCount(trace: seq<Event>)
    requires trace == [LogCalled(0), Sent(0), LogReturned(0), CloseCalled(1), CloseCalled(2), HandlerClosed(1)]
    ensures CloseCalls(trace) <= 2
  {
    hide CloseCalls;
    var log := [LogCalled(0), Sent(0), LogReturned(0)];
    NoCloseCalls(log);
    CloseCallsOne(log, CloseCalled(1));
    CloseCallsOne(log + [CloseCalled(1)], CloseCalled(2));
    CloseCallsOne(log + [CloseCalled(1)] + [CloseCalled(2)], HandlerClosed(1));
    assert trace == log + [CloseCalled(1)] + [CloseCalled(2)] + [HandlerClosed(1)];
  }

  lemma {:induction false} NoCloseCalls(trace: seq<Event>)
    requires forall i :: 0 <= i < |trace| ==> !trace[i].CloseCalled?
    ensures CloseCalls(trace) == 0
  {
    if trace != [] { NoCloseCalls(trace[..|trace| - 1]); }
  }

  /** Over all runs with at most n calls of Close, Close is a barrier exactly when n is at most one or the
      queue has no buffer. */
  lemma CloseBarrierExactly(capacity: nat, n: nat)
    ensures (forall actions :: After(capacity, actions).Next? && CloseCalls(After(capacity, actions).state.trace) <= n ==>
               CloseIsBarrier(After(capacity, actions).state.trace))
            <==> capacity == 0 || n <= 1
  {
    hide After, CloseIsBarrier, CloseCalls;
    if capacity == 0 || n <= 1 {
      forall actions | After(capacity, actions).Next? && CloseCalls(After(capacity, actions).state.trace) <= n
        ensures CloseIsBarrier(After(capacity, actions).state.trace)
      {
        FifoAlways(capacity, actions);
        TameCloseIsBarrier(capacity, actions);
      }
    } else {
      var actions := TwoClosers(capacity);
      TwoClosersBreakIt(After(capacity, actions).state.trace);
      TwoClosersCount(After(capacity, actions).state.trace);
    }
  }
}
