/** What Flush of the asynchronous handler promises, over every interleaving. */
module AsyncBarriers {
  import opened AsyncLog

  // ----- reading a trace -----

  function Returned(trace: seq<Event>): set<Call> {
    set i | 0 <= i < |trace| && trace[i].LogReturned? :: trace[i].call
  }

  /** The Log calls that had returned when e last happened. */
  function ReturnedBefore(trace: seq<Event>, e: Event): set<Call> {
    if trace == [] then {}
    else
      var k := |trace| - 1;
      if trace[k] == e then Returned(trace[..k]) else ReturnedBefore(trace[..k], e)
  }

  /** All entries whose Log returned before e have been given to the wrapped handler. */
  ghost predicate Covered(trace: seq<Event>, e: Event) {
    forall c :: c in ReturnedBefore(trace, e) ==> c in HandledCalls(trace)
  }

  /** All entries whose Log returned before Flush call d began were handled, and then, after d began, came a handler flush. */
  ghost predicate Barrier(trace: seq<Event>, d: Call) {
    exists f :: FlushedAt(trace, d, f)
  }

  ghost predicate FlushedAt(trace: seq<Event>, d: Call, f: nat) {
    && f < |trace| && trace[f] == HandlerFlushed && FlushCalled(d) !in trace[f..]
    && forall c :: c in ReturnedBefore(trace, FlushCalled(d)) ==> c in HandledCalls(trace[..f])
  }

  lemma {:induction false} ReturnedBeforeSubset(trace: seq<Event>, e: Event)
    ensures ReturnedBefore(trace, e) <= Returned(trace)
  {
    if trace != [] {
      var k := |trace| - 1;
      ReturnedBeforeSubset(trace[..k], e);
      ReturnedExtends(trace[..k], trace[k]);
      assert trace == trace[..k] + [trace[k]];
    }
  }

  lemma ReturnedExtends(trace: seq<Event>, e: Event)
    ensures Returned(trace + [e]) == Returned(trace) + if e.LogReturned? then {e.call} else {}
  {
    var t := trace + [e];
    forall c | c in Returned(trace) ensures c in Returned(t) {
      var i :| 0 <= i < |trace| && trace[i] == LogReturned(c);
      assert t[i] == LogReturned(c);
    }
    assert t[|trace|] == e;
  }

  /** A new event other than e leaves the Log calls before e as they were and keeps what is handled. */
  lemma Extend(trace: seq<Event>, n: Event, e: Event)
    ensures ReturnedBefore(trace + [n], e) == if n == e then Returned(trace) else ReturnedBefore(trace, e)
    ensures forall c :: c in HandledCalls(trace) ==> c in HandledCalls(trace + [n])
  {
    assert (trace + [n])[..|trace|] == trace;
    TraceExtends(trace, n);
  }

  lemma CoveredExtends(trace: seq<Event>, n: Event, e: Event)
    requires Covered(trace, e) && n != e
    ensures Covered(trace + [n], e)
  {
    hide ReturnedBefore, HandledCalls;
    Extend(trace, n, e);
  }

  lemma BarrierExtends(trace: seq<Event>, n: Event, d: Call)
    requires Barrier(trace, d) && n != FlushCalled(d)
    ensures Barrier(trace + [n], d)
  {
    var f: nat :| FlushedAt(trace, d, f);
    assert f < |trace|;
    var t := trace + [n];
    Extend(trace, n, FlushCalled(d));
    assert t[..f] == trace[..f];
    assert t[f..] == trace[f..] + [n];
    assert FlushedAt(t, d, f);
  }

  /** A handler flush turns what is covered into a barrier. */
  lemma FlushMakesBarrier(trace: seq<Event>, d: Call)
    requires Covered(trace, FlushCalled(d))
    ensures Barrier(trace + [HandlerFlushed], d)
  {
    hide ReturnedBefore, HandledCalls;
    var t := trace + [HandlerFlushed];
    Extend(trace, HandlerFlushed, FlushCalled(d));
    assert t[..|trace|] == trace && t[|trace|..] == [HandlerFlushed];
    assert FlushedAt(t, d, |trace|);
  }

  // ----- what is always so of one call -----

  predicate HasSent(s: State, c: Call) {
    At(s, c, LogSent) || At(s, c, LogDone)
  }

  predicate InFlush(s: State, c: Call) {
    c in s.calls && s.calls[c] in {FlushStarted, FlushWaiting, FlushWoken, FlushDone}
  }

  predicate InClose(s: State, c: Call) {
    c in s.calls && s.calls[c] in {CloseStarted, CloseWaiting, CloseAcked, CloseClosing, CloseDone}
  }

  /** Trace and stage of call c agree. */
  ghost predicate Known(s: State, c: Call) {
    && (c in Returned(s.trace) ==> c in SentCalls(s.trace))
    && (c in SentCalls(s.trace) <==> HasSent(s, c))
    && (FlushCalled(c) in s.trace <==> InFlush(s, c))
    && (CloseCalled(c) in s.trace <==> InClose(s, c))
  }

  ghost predicate AllKnown(s: State) {
    forall c :: Known(s, c)
  }

  /** Which actions put an event of call c into the trace. */
  lemma StepFacts(s: State, a: Action, c: Call)
    ensures var trace := s.trace + Emits(s, a);
            && (c in Returned(trace) <==> c in Returned(s.trace) || a == ReturnLog(c))
            && (c in SentCalls(trace) <==> c in SentCalls(s.trace) || a == SendEntry(c) || a == HandOver(c))
            && (FlushCalled(c) in trace <==> FlushCalled(c) in s.trace || a == CallFlush(c))
            && (CloseCalled(c) in trace <==> CloseCalled(c) in s.trace || a == CallClose(c))
  {
    hide Returned, SentCalls;
    var es := Emits(s, a);
    if es == [] {
      assert s.trace + es == s.trace;
    } else {
      assert es == [es[0]];
      TraceExtends(s.trace, es[0]);
      ReturnedExtends(s.trace, es[0]);
    }
  }

  /** The next stage of a call. */
  predicate Follows(from: Stage, to: Stage) {
    match from
    case LogStarted => to == LogSent
    case LogSent => to == LogDone
    case FlushStarted => to == FlushWaiting
    case FlushWaiting => to == FlushWoken
    case FlushWoken => to == FlushDone
    case CloseStarted => to == CloseWaiting
    case CloseWaiting => to == CloseAcked
    case CloseAcked => to == CloseClosing
    case CloseClosing => to == CloseDone
    case _ => false
  }

  lemma Moved(s: State, a: Action, c: Call)
    requires Enabled(s, a) && c in Moves(a)
    ensures if c in s.calls then Follows(s.calls[c], Moves(a)[c])
            else a == CallLog(c) || a == CallFlush(c) || a == CallClose(c)
  {
  }

  lemma StepSent(s: State, a: Action, c: Call)
    requires Step(s, a).Next? && !Crashes(s, a)
    ensures HasSent(Step(s, a).state, c) <==> HasSent(s, c) || a == SendEntry(c) || a == HandOver(c)
    ensures a == ReturnLog(c) ==> HasSent(s, c)
  {
    hide RunAfter, QueueAfter, Emits, Enabled;
    if c in Moves(a) { Moved(s, a, c); }
  }

  lemma StepInFlush(s: State, a: Action, c: Call)
    requires Step(s, a).Next? && !Crashes(s, a)
    ensures InFlush(Step(s, a).state, c) <==> InFlush(s, c) || a == CallFlush(c)
  {
    hide RunAfter, QueueAfter, Emits, Enabled;
    if c in Moves(a) { Moved(s, a, c); }
  }

  lemma StepInClose(s: State, a: Action, c: Call)
    requires Step(s, a).Next? && !Crashes(s, a)
    ensures InClose(Step(s, a).state, c) <==> InClose(s, c) || a == CallClose(c)
  {
    hide RunAfter, QueueAfter, Emits, Enabled;
    if c in Moves(a) { Moved(s, a, c); }
  }

  lemma StepKeepsKnown(s: State, a: Action, c: Call)
    requires Known(s, c) && Step(s, a).Next?
    ensures Known(Step(s, a).state, c)
  {
    hide Returned, SentCalls, RunAfter, QueueAfter, Emits, Enabled, Moves, HasSent, InFlush, InClose;
    if Crashes(s, a) {
      SameStages(s, Step(s, a).state, c);
    } else {
      StepFacts(s, a, c);
      StepSent(s, a, c);
      StepInFlush(s, a, c);
      StepInClose(s, a, c);
    }
  }

  lemma SameStages(s: State, t: State, c: Call)
    requires s.calls == t.calls
    ensures (HasSent(s, c) <==> HasSent(t, c)) && (InFlush(s, c) <==> InFlush(t, c)) && (InClose(s, c) <==> InClose(t, c))
  {
  }

  lemma {:induction false} KnownAlways(capacity: nat, actions: seq<Action>)
    requires After(capacity, actions).Next?
    ensures AllKnown(After(capacity, actions).state)
  {
    hide Step;
    if actions != [] {
      var k := |actions| - 1;
      KnownAlways(capacity, actions[..k]);
      var s := After(capacity, actions[..k]).state;
      forall c ensures Known(Step(s, actions[k]).state, c) {
        StepKeepsKnown(s, actions[k], c);
      }
    }
  }

  predicate NoDuplicates(s: seq<Call>) {
    forall i, j :: 0 <= i < j < |s| ==> s[i] != s[j]
  }

  lemma AppendNew(s: seq<Call>, c: Call)
    requires NoDuplicates(s) && c !in s
    ensures NoDuplicates(s + [c])
  {
  }

  lemma StepSendsOnce(s: State, a: Action)
    requires AllKnown(s) && NoDuplicates(SentCalls(s.trace)) && Step(s, a).Next?
    ensures NoDuplicates(SentCalls(Step(s, a).state.trace))
  {
    hide SentCalls, RunAfter, QueueAfter, Moves, NoDuplicates, Emits, Enabled, Crashes, HasSent;
    SentBy(s, a);
    EmitsOne(s, a);
    TraceConcat(s.trace, Emits(s, a));
    assert SentCalls(s.trace) + [] == SentCalls(s.trace);
    if a.SendEntry? || a.HandOver? {
      NotYetSent(s, a);
      assert Known(s, a.c);
      AppendNew(SentCalls(s.trace), a.c);
    }
  }

  lemma NotYetSent(s: State, a: Action)
    requires Enabled(s, a) && (a.SendEntry? || a.HandOver?)
    ensures !HasSent(s, a.c)
  {
  }

  /** No loss, no duplication, no reordering: what has been handled, what run holds and what is queued are,
      in this order, the entries sent, each once. */
  lemma {:induction false} SentIsConserved(capacity: nat, actions: seq<Action>)
    requires After(capacity, actions).Next?
    ensures var s := After(capacity, actions).state;
            HandledCalls(s.trace) + InHand(s) + s.queue == SentCalls(s.trace) && NoDuplicates(SentCalls(s.trace))
  {
    hide Step, AllKnown, SentCalls, HandledCalls;
    FifoAlways(capacity, actions);
    if actions == [] {
      SentOne([]);
    } else {
      var k := |actions| - 1;
      SentIsConserved(capacity, actions[..k]);
      KnownAlways(capacity, actions[..k]);
      StepSendsOnce(After(capacity, actions[..k]).state, actions[k]);
    }
  }

  lemma {:induction false} PhasesAlways(capacity: nat, actions: seq<Action>)
    requires After(capacity, actions).Next?
    ensures Phases(After(capacity, actions).state)
  {
    hide Step;
    if actions != [] {
      var k := |actions| - 1;
      PhasesAlways(capacity, actions[..k]);
      StepKeepsPhases(After(capacity, actions[..k]).state, actions[k]);
    }
  }

  // ----- Flush -----

  /** With an empty queue and nothing in hand, everything returned has been handled. */
  lemma IdleCovers(s: State, e: Event)
    requires AllKnown(s) && Fifo(s) && |s.queue| == 0 && !s.run.Handling?
    ensures Covered(s.trace, e)
  {
    hide ReturnedBefore, Returned, SentCalls, HandledCalls;
    ReturnedBeforeSubset(s.trace, e);
    assert HandledCalls(s.trace) + [] + [] == HandledCalls(s.trace);
    forall c | c in ReturnedBefore(s.trace, e) ensures c in HandledCalls(s.trace) {
      assert Known(s, c);
    }
  }

  ghost predicate FlushWaits(s: State, d: Call) {
    && (At(s, d, FlushWaiting) ==> s.flush || Barrier(s.trace, d))
    && (At(s, d, FlushWaiting) && s.run.Flushing? ==> Covered(s.trace, FlushCalled(d)))
    && (At(s, d, FlushWoken) || At(s, d, FlushDone) ==> Barrier(s.trace, d))
  }

  /** Events of an action, seen from a call that has begun. */
  lemma BarriersExtend(s: State, a: Action, d: Call)
    requires Step(s, a).Next? && d in s.calls
    ensures Barrier(s.trace, d) ==> Barrier(Step(s, a).state.trace, d)
    ensures Covered(s.trace, FlushCalled(d)) ==> Covered(Step(s, a).state.trace, FlushCalled(d))
    ensures Covered(s.trace, CloseCalled(d)) ==> Covered(Step(s, a).state.trace, CloseCalled(d))
  {
    hide Barrier, Covered, RunAfter, QueueAfter, Moves;
    var es := Emits(s, a);
    if es == [] || Crashes(s, a) {
      assert s.trace + [] == s.trace;
    } else {
      assert es == [es[0]];
      assert es[0] != FlushCalled(d) && es[0] != CloseCalled(d);
      if Barrier(s.trace, d) { BarrierExtends(s.trace, es[0], d); }
      if Covered(s.trace, FlushCalled(d)) { CoveredExtends(s.trace, es[0], FlushCalled(d)); }
      if Covered(s.trace, CloseCalled(d)) { CoveredExtends(s.trace, es[0], CloseCalled(d)); }
    }
  }

  lemma StepKeepsFlushWaits(s: State, a: Action, d: Call)
    requires FlushWaits(s, d) && Phases(s) && AllKnown(s) && Fifo(s) && Step(s, a).Next?
    ensures FlushWaits(Step(s, a).state, d)
  {
    hide Barrier, Covered, AllKnown, Fifo;
    if Crashes(s, a) {
    } else if d in Moves(a) {
      FlushMoves(s, a, d);
    } else if d in s.calls {
      FlushStays(s, a, d);
    }
  }

  lemma StepFlushFlag(s: State, a: Action)
    requires Enabled(s, a)
    ensures s.flush ==> Effect(s, a).flush || a.FlushHandler?
    ensures a.FlushHandler? ==> s.run.Flushing? && RunAfter(s, a).Waking?
  {
    hide At;
  }

  lemma StepToFlushing(s: State, a: Action)
    requires RunAfter(s, a).Flushing?
    ensures s.run.Flushing? || (a.Check? && |s.queue| == 0)
  {
  }

  lemma CheckWhenChecking(s: State, a: Action)
    requires Enabled(s, a) && a.Check?
    ensures s.run.Checking?
  {
  }

  lemma FlushMoves(s: State, a: Action, d: Call)
    requires FlushWaits(s, d) && Phases(s) && Step(s, a).Next? && !Crashes(s, a) && d in Moves(a)
    ensures FlushWaits(Step(s, a).state, d)
  {
    hide Barrier, Covered, Emits, Enabled, RunAfter, QueueAfter, Moves;
    if d in s.calls {
      Moved(s, a, d);
      BarriersExtend(s, a, d);
      FlushMovesWhen(s, a, d);
    } else {
      MovesAtFirst(s, a, d);
    }
  }

  lemma MovesAtFirst(s: State, a: Action, d: Call)
    requires Enabled(s, a) && d in Moves(a) && d !in s.calls
    ensures Moves(a)[d] in {LogStarted, FlushStarted, CloseStarted}
  {
  }

  /** What holds when a Flush call moves on. */
  lemma FlushMovesWhen(s: State, a: Action, d: Call)
    requires Enabled(s, a) && !Crashes(s, a) && d in Moves(a)
    ensures Moves(a)[d] == FlushWaiting ==> Effect(s, a).flush && RunAfter(s, a).Checking?
    ensures Moves(a)[d] == FlushWoken ==> s.run.Waking? || s.flushWaitClosed
  {
  }

  lemma FlushStays(s: State, a: Action, d: Call)
    requires FlushWaits(s, d) && AllKnown(s) && Fifo(s) && Step(s, a).Next? && d !in Moves(a) && d in s.calls
    ensures FlushWaits(Step(s, a).state, d)
  {
    hide Barrier, Covered, AllKnown, Fifo, Moves, Enabled, RunAfter, QueueAfter;
    BarriersExtend(s, a, d);
    StepFlushFlag(s, a);
    if RunAfter(s, a).Flushing? {
      StepToFlushing(s, a);
      if a.Check? && |s.queue| == 0 {
        CheckWhenChecking(s, a);
        IdleCovers(s, FlushCalled(d));
      }
    }
    if a.FlushHandler? && At(s, d, FlushWaiting) {
      FlushMakesBarrier(s.trace, d);
    }
  }

  lemma {:induction false} FlushWaitsAlways(capacity: nat, actions: seq<Action>, d: Call)
    requires After(capacity, actions).Next?
    ensures FlushWaits(After(capacity, actions).state, d)
  {
    hide Step, AllKnown, Phases, Fifo;
    if actions != [] {
      var k := |actions| - 1;
      var s := After(capacity, actions[..k]).state;
      FlushWaitsAlways(capacity, actions[..k], d);
      KnownAlways(capacity, actions[..k]);
      PhasesAlways(capacity, actions[..k]);
      FifoAlways(capacity, actions[..k]);
      StepKeepsFlushWaits(s, actions[k], d);
    }
  }

  /** At every return of a Flush its barrier is in the trace. */
  ghost predicate FlushReturnsAfterBarrier(trace: seq<Event>, d: Call) {
    forall k :: 0 <= k < |trace| && trace[k] == FlushReturned(d) ==> Barrier(trace[..k], d)
  }

  lemma {:induction false} FlushReturnsAlways(capacity: nat, actions: seq<Action>, d: Call)
    requires After(capacity, actions).Next?
    ensures FlushReturnsAfterBarrier(After(capacity, actions).state.trace, d)
  {
    hide Barrier, RunAfter, QueueAfter, Moves;
    if actions != [] {
      var k := |actions| - 1;
      var s := After(capacity, actions[..k]).state;
      FlushReturnsAlways(capacity, actions[..k], d);
      FlushWaitsAlways(capacity, actions[..k], d);
      ReturnsExtend(s, actions[k], d);
    }
  }

  /** A step adds at most one event, and the return of a Flush only when it returns. */
  lemma StepAppends(s: State, a: Action, c: Call)
    requires Step(s, a).Next?
    ensures var t := Step(s, a).state.trace;
            && |s.trace| <= |t| <= |s.trace| + 1 && t[..|s.trace|] == s.trace
            && (|t| > |s.trace| && t[|s.trace|] == FlushReturned(c) ==> a == ReturnFlush(c))
            && (|t| > |s.trace| && t[|s.trace|] == HandlerClosed(c) ==> a == CloseHandler(c))
  {
    hide Enabled, Crashes, RunAfter, QueueAfter, Moves;
  }

  lemma ReturnsExtend(s: State, a: Action, d: Call)
    requires Step(s, a).Next? && FlushReturnsAfterBarrier(s.trace, d) && FlushWaits(s, d)
    ensures FlushReturnsAfterBarrier(Step(s, a).state.trace, d)
  {
    hide Barrier, FlushWaits, Step;
    StepAppends(s, a, d);
    if a == ReturnFlush(d) { FlushReturnSees(s, a, d); }
    var t := Step(s, a).state.trace;
    forall k | 0 <= k < |t| && t[k] == FlushReturned(d) ensures Barrier(t[..k], d) {
      if k < |s.trace| {
        assert t[k] == t[..|s.trace|][k] && t[..k] == s.trace[..k];
      }
    }
  }

  lemma FlushReturnSees(s: State, a: Action, d: Call)
    requires Step(s, a).Next? && FlushWaits(s, d) && a == ReturnFlush(d)
    ensures Barrier(s.trace, d)
  {
    hide Barrier, Effect;
  }

  lemma {:induction false} ReturnedBeforeAt(trace: seq<Event>, i: nat, j: nat, c: Call, e: Event)
    requires i < j < |trace| && trace[i] == LogReturned(c) && trace[j] == e
    ensures c in ReturnedBefore(trace, e)
  {
    var k := |trace| - 1;
    if trace[k] == e {
      assert trace[..k][i] == LogReturned(c);
    } else {
      ReturnedBeforeAt(trace[..k], i, j, c, e);
    }
  }

  lemma {:induction false} HandledIndex(trace: seq<Event>, c: Call) returns (h: nat)
    requires c in HandledCalls(trace)
    ensures h < |trace| && trace[h] == Handled(c)
  {
    var k := |trace| - 1;
    if trace[k] == Handled(c) {
      h := k;
    } else {
      h := HandledIndex(trace[..k], c);
    }
  }

  lemma BarrierAtReturn(capacity: nat, actions: seq<Action>, i: nat, j: nat, k: nat, c: Call, d: Call)
      returns (h: nat, f: nat)
    requires After(capacity, actions).Next?
    requires var trace := After(capacity, actions).state.trace;
             i < j < k < |trace| && trace[i] == LogReturned(c) && trace[j] == FlushCalled(d) && trace[k] == FlushReturned(d)
    ensures var trace := After(capacity, actions).state.trace;
            h < f < k && j < f && trace[h] == Handled(c) && trace[f] == HandlerFlushed
  {
    hide After, ReturnedBefore, HandledCalls;
    var trace := After(capacity, actions).state.trace;
    FlushReturnsAlways(capacity, actions, d);
    var t := trace[..k];
    assert Barrier(t, d);
    f :| FlushedAt(t, d, f);
    assert f < |t| && FlushCalled(d) !in t[f..];
    assert t[i] == trace[i] && t[j] == trace[j];
    ReturnedBeforeAt(t, i, j, c, FlushCalled(d));
    h := HandledIndex(t[..f], c);
  }

  /** When Flush d returns, every entry whose Log had returned before d began has been handled, and
      after that, and after d began, the wrapped handler has been flushed. */
  ghost predicate FlushIsBarrier(trace: seq<Event>) {
    forall i, j, k, c, d ::
      0 <= i < j < k < |trace| && trace[i] == LogReturned(c) && trace[j] == FlushCalled(d) && trace[k] == FlushReturned(d)
      ==> exists h, f :: 0 <= h < f < k && j < f && trace[h] == Handled(c) && trace[f] == HandlerFlushed
  }

  lemma FlushIsBarrierAlways(capacity: nat, actions: seq<Action>)
    requires After(capacity, actions).Next?
    ensures FlushIsBarrier(After(capacity, actions).state.trace)
  {
    hide After;
    var trace := After(capacity, actions).state.trace;
    forall i, j, k, c, d |
      0 <= i < j < k < |trace| && trace[i] == LogReturned(c) && trace[j] == FlushCalled(d) && trace[k] == FlushReturned(d)
      ensures exists h, f :: 0 <= h < f < k && j < f && trace[h] == Handled(c) && trace[f] == HandlerFlushed
    {
      var h, f := BarrierAtReturn(capacity, actions, i, j, k, c, d);
    }
  }
}
