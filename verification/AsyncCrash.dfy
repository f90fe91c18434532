/** When a call on the asynchronous handler meets a closed channel, which ends the program. */
module AsyncCrash {
  import opened AsyncLog
  import opened AsyncBarriers
  import opened AsyncClose

  lemma OneCloserStops(s: State, c: Call)
    requires AllKnown(s) && CloseWaits(s, c) && CloseCalls(s.trace) <= 1
    requires At(s, c, CloseStarted) || At(s, c, CloseAcked)
    ensures !s.stopClosed
  {
  }

  /** With at most one call of Close only a late Log or Flush can meet a closed channel. */
  lemma CrashMeansLateSend(s: State, a: Action)
    requires AllKnown(s) && Phases(s) && Stopping(s) && CloseCalls(s.trace) <= 1
    requires a.SendStop? || a.CloseStop? ==> CloseWaits(s, a.c)
    requires Enabled(s, a) && Crashes(s, a)
    ensures (a.SendEntry? && At(s, a.c, LogStarted)) || (a.SendFlush? && At(s, a.c, FlushStarted))
    ensures CloseCalls(s.trace) == 1 && Finishing(s.run)
  {
    hide AllKnown, RunAfter, QueueAfter, Moves, Emits, CloseCalls, Covered, CloseWaits;
    if a.SendStop? || a.CloseStop? {
      OneCloserStops(s, a.c);
    }
  }

  /** A run with at most one call of Close has crashed exactly when its last step was the send of a Log or a
      Flush to a channel that run had already closed for the one call of Close. */
  lemma CrashOnlyByLateSend(capacity: nat, actions: seq<Action>)
    requires After(capacity, actions).Next? && CloseCalls(After(capacity, actions).state.trace) <= 1
    ensures After(capacity, actions).state.crashed <==>
            && actions != []
            && var s, a := After(capacity, actions[..|actions| - 1]).state, actions[|actions| - 1];
               && CloseCalls(s.trace) == 1 && Finishing(s.run)
               && ((a.SendEntry? && At(s, a.c, LogStarted) && s.queueClosed)
                   || (a.SendFlush? && At(s, a.c, FlushStarted) && s.flushClosed))
  {
    hide AllKnown, Phases, Stopping, CloseCalls, CloseWaits, Effect, Finishing;
    if actions != [] {
      var k := |actions| - 1;
      var s, a := After(capacity, actions[..k]).state, actions[k];
      KnownAlways(capacity, actions[..k]);
      PhasesAlways(capacity, actions[..k]);
      CloseWaitsAlways(capacity, actions[..k]);
      if Crashes(s, a) {
        CrashMeansLateSend(s, a);
      } else {
        EffectRuns(s, a);
      }
    }
  }

  lemma EffectRuns(s: State, a: Action)
    ensures Effect(s, a).crashed == s.crashed
  {
  }

  // ----- the rule for callers -----

  predicate InLog(s: State, c: Call) {
    At(s, c, LogStarted) || At(s, c, LogSent) || At(s, c, LogDone)
  }

  /** The stage of a call shows in the trace where it began, and where a Flush returned. */
  ghost predicate Seen(s: State, c: Call) {
    && (InLog(s, c) <==> LogCalled(c) in s.trace)
    && (At(s, c, FlushDone) <==> FlushReturned(c) in s.trace)
  }

  lemma StepSees(s: State, a: Action, c: Call)
    requires Enabled(s, a) && !Crashes(s, a)
    ensures InLog(Effect(s, a), c) <==> InLog(s, c) || a == CallLog(c)
    ensures At(Effect(s, a), c, FlushDone) <==> At(s, c, FlushDone) || a == ReturnFlush(c)
  {
    hide RunAfter, QueueAfter, Emits, Enabled;
    if c in Moves(a) { Moved(s, a, c); }
  }

  lemma StepShows(s: State, a: Action, c: Call)
    ensures LogCalled(c) in s.trace + Emits(s, a) <==> LogCalled(c) in s.trace || a == CallLog(c)
    ensures FlushReturned(c) in s.trace + Emits(s, a) <==> FlushReturned(c) in s.trace || a == ReturnFlush(c)
  {
    EmitsOne(s, a);
  }

  lemma StepKeepsSeen(s: State, a: Action, c: Call)
    requires Seen(s, c) && Step(s, a).Next?
    ensures Seen(Step(s, a).state, c)
  {
    hide RunAfter, QueueAfter, Emits, Enabled, Moves;
    if !Crashes(s, a) {
      hide InLog, Crashes;
      StepSees(s, a, c);
      StepShows(s, a, c);
    }
  }

  lemma {:induction false} SeenAlways(capacity: nat, actions: seq<Action>, c: Call)
    requires After(capacity, actions).Next?
    ensures Seen(After(capacity, actions).state, c)
  {
    hide Step;
    if actions != [] {
      var k := |actions| - 1;
      SeenAlways(capacity, actions[..k], c);
      StepKeepsSeen(After(capacity, actions[..k]).state, actions[k], c);
    }
  }

  /** Before Close is called every Log and every Flush of the run has returned. */
  ghost predicate Quiet(trace: seq<Event>) {
    forall j, d :: 0 <= j < |trace| && trace[j] == CloseCalled(d) ==> AllBack(trace, trace[..j])
  }

  ghost predicate AllBack(trace: seq<Event>, before: seq<Event>) {
    && (forall c :: LogCalled(c) in trace ==> LogReturned(c) in before)
    && (forall c :: FlushCalled(c) in trace ==> FlushReturned(c) in before)
  }

  lemma {:induction false} CloseCallAt(trace: seq<Event>) returns (j: nat)
    requires CloseCalls(trace) > 0
    ensures j < |trace| && trace[j].CloseCalled?
  {
    j := |trace| - 1;
    if !trace[j].CloseCalled? { j := CloseCallAt(trace[..j]); }
  }

  lemma LateIsOut(s: State, c: Call)
    requires Known(s, c) && Seen(s, c)
    ensures At(s, c, LogStarted) ==> LogCalled(c) in s.trace && LogReturned(c) !in s.trace
    ensures At(s, c, FlushStarted) ==> FlushCalled(c) in s.trace && FlushReturned(c) !in s.trace
  {
    hide SentCalls;
    if LogReturned(c) in s.trace {
      var i :| 0 <= i < |s.trace| && s.trace[i] == LogReturned(c);
      assert s.trace[i].LogReturned?;
      assert c in Returned(s.trace);
    }
  }

  lemma LateIsNotQuiet(s: State, c: Call)
    requires Known(s, c) && Seen(s, c) && CloseCalls(s.trace) > 0
    requires At(s, c, LogStarted) || At(s, c, FlushStarted)
    ensures !Quiet(s.trace)
  {
    hide Known, Seen;
    LateIsOut(s, c);
    var j := CloseCallAt(s.trace);
    assert s.trace[j] == CloseCalled(s.trace[j].call);
    assert !AllBack(s.trace, s.trace[..j]);
  }

  /** A caller that follows the rule, and calls Close once, is safe in every interleaving. */
  lemma QuietNeverCrashes(capacity: nat, actions: seq<Action>)
    requires After(capacity, actions).Next? && CloseCalls(After(capacity, actions).state.trace) <= 1
    requires Quiet(After(capacity, actions).state.trace)
    ensures !After(capacity, actions).state.crashed
  {
    hide CloseCalls, Known, Seen, Finishing, Effect, Enabled, Quiet;
    CrashOnlyByLateSend(capacity, actions);
    if After(capacity, actions).state.crashed {
      var k := |actions| - 1;
      var s, a := After(capacity, actions[..k]).state, actions[k];
      KnownAlways(capacity, actions[..k]);
      SeenAlways(capacity, actions[..k], a.c);
      LateIsNotQuiet(s, a.c);
    }
  }

  // ----- runs that crash -----

  lemma DoCheck(s: State)
    requires !s.crashed && s.run.Checking? && !s.flush && s.stop && |s.queue| == 0
    ensures Step(s, Check) == Next(s.(run := ClosingFlush))
  {
    assert s.trace + [] == s.trace;
  }

  lemma DoCloseFlush(s: State)
    requires !s.crashed && s.run.ClosingFlush?
    ensures Step(s, CloseFlush) == Next(s.(run := ClosingFlushWait, flushClosed := true))
  {
    assert s.trace + [] == s.trace;
  }

  lemma DoCloseFlushWait(s: State)
    requires !s.crashed && s.run.ClosingFlushWait?
    ensures Step(s, CloseFlushWait) == Next(s.(run := ClosingQueue, flushWaitClosed := true))
  {
    assert s.trace + [] == s.trace;
  }

  lemma DoCloseQueue(s: State)
    requires !s.crashed && s.run.ClosingQueue?
    ensures Step(s, CloseQueue) == Next(s.(run := Acking, queueClosed := true))
  {
    assert s.trace + [] == s.trace;
  }

  lemma DoAcknowledgeByClose(s: State, c: Call)
    requires !s.crashed && At(s, c, CloseWaiting) && s.stopClosed
    ensures Step(s, AcknowledgeByClose(c)) == Next(s.(calls := s.calls[c := CloseAcked]))
  {
    assert s.trace + [] == s.trace;
  }

  /** One Close, and run has closed its channels. */
  lemma Closed(capacity: nat) returns (actions: seq<Action>)
    ensures After(capacity, actions).Next?
    ensures var s := After(capacity, actions).state;
            !s.crashed && s.queueClosed && s.flushClosed && 1 !in s.calls && s.trace == [CloseCalled(0)]
  {
    assert After(capacity, []) == Next(Init(capacity));
    hide After, Step;
    actions := [];
    DoCallClose(After(capacity, actions).state, 0);
    actions := AfterOne(capacity, actions, CallClose(0));
    DoSendStop(After(capacity, actions).state, 0);
    actions := AfterOne(capacity, actions, SendStop(0));
    DoCheck(After(capacity, actions).state);
    actions := AfterOne(capacity, actions, Check);
    DoCloseFlush(After(capacity, actions).state);
    actions := AfterOne(capacity, actions, CloseFlush);
    DoCloseFlushWait(After(capacity, actions).state);
    actions := AfterOne(capacity, actions, CloseFlushWait);
    DoCloseQueue(After(capacity, actions).state);
    actions := AfterOne(capacity, actions, CloseQueue);
  }

  /** A Log that begins after Close sends to the closed queue. */
  lemma LateLogCrashes(capacity: nat) returns (actions: seq<Action>)
    ensures After(capacity, actions).Next? && After(capacity, actions).state.crashed
    ensures After(capacity, actions).state.trace == [CloseCalled(0), LogCalled(1)]
  {
    hide After, Step;
    actions := Closed(capacity);
    DoCallLog(After(capacity, actions).state, 1);
    actions := AfterOne(capacity, actions, CallLog(1));
    DoLateSend(After(capacity, actions).state, 1);
    actions := AfterOne(capacity, actions, SendEntry(1));
  }

  /** So does a Flush, to the closed flush channel. */
  lemma LateFlushCrashes(capacity: nat) returns (actions: seq<Action>)
    ensures After(capacity, actions).Next? && After(capacity, actions).state.crashed
    ensures After(capacity, actions).state.trace == [CloseCalled(0), FlushCalled(1)]
  {
    hide After, Step;
    actions := Closed(capacity);
    DoCallFlush(After(capacity, actions).state, 1);
    actions := AfterOne(capacity, actions, CallFlush(1));
    DoLateFlush(After(capacity, actions).state, 1);
    actions := AfterOne(capacity, actions, SendFlush(1));
  }

  lemma DoLateSend(s: State, c: Call)
    requires !s.crashed && At(s, c, LogStarted) && s.queueClosed
    ensures Step(s, SendEntry(c)) == Next(s.(crashed := true))
  {
  }

  lemma DoCallFlush(s: State, c: Call)
    requires !s.crashed && c !in s.calls
    ensures Step(s, CallFlush(c)) == Next(s.(calls := s.calls[c := FlushStarted], trace := s.trace + [FlushCalled(c)]))
  {
  }

  lemma DoLateFlush(s: State, c: Call)
    requires !s.crashed && At(s, c, FlushStarted) && s.flushClosed
    ensures Step(s, SendFlush(c)) == Next(s.(crashed := true))
  {
  }

  lemma DoCloseAgain(s: State, c: Call)
    requires !s.crashed && At(s, c, CloseAcked) && s.stopClosed
    ensures Step(s, CloseStop(c)) == Next(s.(crashed := true))
  {
  }

  /** Two closers meet on the stop channel. */
  lemma TwoMeet(capacity: nat) returns (actions: seq<Action>)
    ensures After(capacity, actions).Next?
    ensures var s := After(capacity, actions).state;
            && !s.crashed && !s.stopClosed && At(s, 0, CloseAcked) && At(s, 1, CloseWaiting)
            && s.run.Checking? && s.stop && !s.flush && |s.queue| == 0
            && s.trace == [CloseCalled(0), CloseCalled(1)]
  {
    assert After(capacity, []) == Next(Init(capacity));
    hide After, Step;
    actions := [];
    DoCallClose(After(capacity, actions).state, 0);
    actions := AfterOne(capacity, actions, CallClose(0));
    DoCallClose(After(capacity, actions).state, 1);
    actions := AfterOne(capacity, actions, CallClose(1));
    DoSendStop(After(capacity, actions).state, 0);
    actions := AfterOne(capacity, actions, SendStop(0));
    DoSendStopTo(After(capacity, actions).state, 1, 0);
    actions := AfterOne(capacity, actions, SendStopTo(1, 0));
  }

  /** Two closers alone can crash: both close the stop channel. */
  lemma TwoClosersCrash(capacity: nat) returns (actions: seq<Action>)
    ensures After(capacity, actions).Next? && After(capacity, actions).state.crashed
    ensures After(capacity, actions).state.trace == [CloseCalled(0), CloseCalled(1)]
  {
    hide After, Step;
    actions := TwoMeet(capacity);
    DoCloseStop(After(capacity, actions).state, 0);
    actions := AfterOne(capacity, actions, CloseStop(0));
    DoAcknowledgeByClose(After(capacity, actions).state, 1);
    actions := AfterOne(capacity, actions, AcknowledgeByClose(1));
    DoCloseAgain(After(capacity, actions).state, 1);
    actions := AfterOne(capacity, actions, CloseStop(1));
  }

  lemma TwoClosersQuiet(trace: seq<Event>)
    requires trace == [CloseCalled(0), CloseCalled(1)]
    ensures Quiet(trace) && CloseCalls(trace) <= 2
  {
    hide CloseCalls;
    NoCloseCalls([]);
    CloseCallsOne([], CloseCalled(0));
    CloseCallsOne([CloseCalled(0)], CloseCalled(1));
    assert [] + [CloseCalled(0)] == [CloseCalled(0)];
    assert trace == [CloseCalled(0)] + [CloseCalled(1)];
  }

  /** The rule is exact in the number of closers: quiet runs with at most n calls of Close never crash if and
      only if n is at most one. */
  lemma QuietExactly(capacity: nat, n: nat)
    ensures (forall actions ::
               After(capacity, actions).Next? && Quiet(After(capacity, actions).state.trace)
               && CloseCalls(After(capacity, actions).state.trace) <= n ==>
               !After(capacity, actions).state.crashed)
            <==> n <= 1
  {
    hide After, Quiet, CloseCalls;
    if n <= 1 {
      forall actions | After(capacity, actions).Next? && Quiet(After(capacity, actions).state.trace)
                       && CloseCalls(After(capacity, actions).state.trace) <= n
        ensures !After(capacity, actions).state.crashed
      {
        QuietNeverCrashes(capacity, actions);
      }
    } else {
      var actions := TwoClosersCrash(capacity);
      TwoClosersQuiet(After(capacity, actions).state.trace);
    }
  }

  // ----- two closers and run -----

  /** Two closers can also end the program in run itself, when it answers on the closed stop channel. */
  lemma RunCanCrash(capacity: nat) returns (actions: seq<Action>)
    ensures After(capacity, actions).Next? && After(capacity, actions).state.crashed
    ensures After(capacity, actions).state.trace == [CloseCalled(0), CloseCalled(1)]
    ensures actions != [] && actions[|actions| - 1] == AcknowledgeCrash
  {
    hide After, Step;
    actions := TwoMeet(capacity);
    DoCloseStop(After(capacity, actions).state, 0);
    actions := AfterOne(capacity, actions, CloseStop(0));
    DoCheck(After(capacity, actions).state);
    actions := AfterOne(capacity, actions, Check);
    DoCloseFlush(After(capacity, actions).state);
    actions := AfterOne(capacity, actions, CloseFlush);
    DoCloseFlushWait(After(capacity, actions).state);
    actions := AfterOne(capacity, actions, CloseFlushWait);
    DoCloseQueue(After(capacity, actions).state);
    actions := AfterOne(capacity, actions, CloseQueue);
    DoAnswerClosed(After(capacity, actions).state);
    actions := AfterOne(capacity, actions, AcknowledgeCrash);
  }

  lemma DoAnswerClosed(s: State)
    requires !s.crashed && s.run.Acking? && s.stopClosed
    ensures Step(s, AcknowledgeCrash) == Next(s.(crashed := true))
  {
  }

  lemma DoReceiveClosedStop(s: State)
    requires !s.crashed && s.run.Selecting? && s.stopClosed
    ensures Step(s, ReceiveClosedStop) == Next(s.(run := Checking, stop := true))
  {
    assert s.trace + [] == s.trace;
  }

  lemma DoCheckQueue(s: State)
    requires !s.crashed && s.run.Checking? && !s.flush && |s.queue| > 0
    ensures Step(s, Check) == Next(s.(run := Selecting))
  {
    assert s.trace + [] == s.trace;
  }

  /** With an entry still queued run receives from the closed stop channel as well. */
  lemma StopSeenTwice(capacity: nat) returns (actions: seq<Action>)
    requires capacity > 0
    ensures After(capacity, actions).Next? && actions != [] && actions[|actions| - 1] == ReceiveClosedStop
    ensures !After(capacity, actions).state.crashed
  {
    hide After, Step;
    actions := LogThenClosers(capacity);
    DoSendStop(After(capacity, actions).state, 1);
    actions := AfterOne(capacity, actions, SendStop(1));
    DoCheckQueue(After(capacity, actions).state);
    actions := AfterOne(capacity, actions, Check);
    DoSendStopTo(After(capacity, actions).state, 2, 1);
    actions := AfterOne(capacity, actions, SendStopTo(2, 1));
    DoCloseStop(After(capacity, actions).state, 1);
    actions := AfterOne(capacity, actions, CloseStop(1));
    DoReceiveClosedStop(After(capacity, actions).state);
    actions := AfterOne(capacity, actions, ReceiveClosedStop);
  }
}
