/** What the asynchronous handler can still do, from every state that can be reached before Close is called. */
module AsyncProgress {
  import opened AsyncLog
  import opened AsyncBarriers
  import opened AsyncClose
  import opened AsyncCrash

  predicate NewCall(a: Action) {
    a.CallLog? || a.CallFlush? || a.CallClose?
  }

  /** longer goes on from actions, and no call begins in between. */
  predicate GoesOn(actions: seq<Action>, longer: seq<Action>) {
    actions <= longer && forall i :: |actions| <= i < |longer| ==> !NewCall(longer[i])
  }

  // ----- states before Close -----

  ghost predicate Open(s: State) {
    && !s.crashed && !s.stop && !s.stopClosed && !s.flushClosed && !s.flushWaitClosed && !s.queueClosed
    && (s.run.Selecting? || s.run.Handling? || s.run.Checking? || s.run.Flushing? || s.run.Waking?)
    && forall c :: !InClose(s, c)
  }

  /** A requested flush has a call waiting for it, and one that run leaves for later leaves an entry to receive. */
  ghost predicate Waited(s: State) {
    && (s.flush || s.run.Waking? ==> exists d :: At(s, d, FlushWaiting))
    && (s.run.Selecting? && s.flush ==> |s.queue| > 0)
    && |s.queue| <= s.capacity
  }

  ghost predicate Ready(s: State) {
    Open(s) && Waited(s) && FlushPhases(s)
  }

  lemma OpenNeverCrashes(s: State, a: Action)
    requires Open(s) && Enabled(s, a)
    ensures !Crashes(s, a)
    ensures !(a.SendStop? || a.SendStopTo? || a.Acknowledge? || a.AcknowledgeByClose? || a.CloseStop? || a.CloseHandler?)
    ensures !(a.WakeByClose? || a.ReceiveClosedStop? || a.CloseFlush? || a.CloseFlushWait? || a.CloseQueue? || a.AcknowledgeCrash?)
  {
    if a.SendStop? || a.SendStopTo? || a.Acknowledge? || a.AcknowledgeByClose? || a.CloseStop? || a.CloseHandler? {
      assert InClose(s, a.c);
    }
  }

  lemma StepKeepsOpen(s: State, a: Action)
    requires Ready(s) && Step(s, a).Next? && !a.CallClose?
    ensures Open(Step(s, a).state)
  {
    hide Enabled, QueueAfter, Moves, Emits, InClose;
    OpenNeverCrashes(s, a);
    forall c ensures !InClose(Step(s, a).state, c) {
      StepInClose(s, a, c);
    }
  }

  /** Only being woken ends waiting. */
  lemma WaiterStays(s: State, a: Action, d: Call)
    requires Enabled(s, a) && At(s, d, FlushWaiting)
    ensures a == Wake(d) || a == WakeByClose(d) || At(Effect(s, a), d, FlushWaiting)
    ensures a.FlushHandler? ==> s.run.Flushing?
  {
    hide RunAfter, QueueAfter, Emits;
  }

  lemma SenderWaits(s: State, a: Action)
    requires a.SendFlush?
    ensures At(Effect(s, a), a.c, FlushWaiting)
  {
    hide RunAfter, QueueAfter, Emits;
  }

  /** How run comes to select or to wake, and what it has requested then. */
  lemma RunSelects(s: State, a: Action)
    requires Open(s) && Enabled(s, a) && FlushPhases(s)
    ensures RunAfter(s, a).Selecting? ==>
              || (a.Wake? && s.run.Waking?)
              || (a.Check? && (s.flush ==> |s.queue| > 0))
              || (s.run.Selecting? && !a.SendFlush? && !a.ReceiveEntry?)
    ensures RunAfter(s, a).Waking? ==> (a.FlushHandler? && s.flush) || (s.run.Waking? && !a.Wake?)
    ensures a.Wake? ==> s.run.Waking? && RunAfter(s, a).Selecting?
  {
    hide At, QueueAfter, Emits, InClose;
    OpenNeverCrashes(s, a);
  }

  lemma QueueGrows(s: State, a: Action)
    requires Enabled(s, a) && !Crashes(s, a) && |s.queue| <= s.capacity
    ensures |QueueAfter(s, a)| <= s.capacity
    ensures !a.ReceiveEntry? ==> |QueueAfter(s, a)| >= |s.queue|
  {
    hide RunAfter, At, Emits;
  }

  lemma StepKeepsWaited(s: State, a: Action)
    requires Ready(s) && Step(s, a).Next? && !a.CallClose?
    ensures Waited(Step(s, a).state)
  {
    hide Emits, Crashes, Enabled, RunAfter, QueueAfter, At, Open, Moves;
    OpenNeverCrashes(s, a);
    RunSelects(s, a);
    QueueGrows(s, a);
    var t := Step(s, a).state;
    if a.SendFlush? {
      SenderWaits(s, a);
    } else if s.flush || s.run.Waking? {
      var d :| At(s, d, FlushWaiting);
      WaiterStays(s, a, d);
    }
  }

  lemma {:induction false} ReadyAlways(capacity: nat, actions: seq<Action>)
    requires After(capacity, actions).Next? && CloseCalls(After(capacity, actions).state.trace) == 0
    ensures Ready(After(capacity, actions).state)
  {
    hide Step, Open, Waited, FlushPhases, CloseCalls;
    if actions == [] {
      InitReady(capacity);
    } else {
      var k := |actions| - 1;
      var s, a := After(capacity, actions[..k]).state, actions[k];
      NoCloseBefore(s, a);
      ReadyAlways(capacity, actions[..k]);
      StepKeepsReady(s, a);
    }
  }

  lemma InitReady(capacity: nat)
    ensures Ready(Init(capacity)) && CloseCalls([]) == 0
  {
  }

  lemma NoCloseBefore(s: State, a: Action)
    requires Step(s, a).Next?
    ensures CloseCalls(Step(s, a).state.trace) == CloseCalls(s.trace) + if a.CallClose? then 1 else 0
  {
    hide CloseCalls, RunAfter, QueueAfter, Moves, Emits, Enabled;
    CloseCallsExtend(s, a);
  }

  lemma StepKeepsReady(s: State, a: Action)
    requires Ready(s) && Step(s, a).Next? && !a.CallClose?
    ensures Ready(Step(s, a).state)
    ensures !Crashes(s, a)
  {
    hide Open, Waited, FlushPhases, Step, ClosingPhases;
    StepKeepsOpen(s, a);
    StepKeepsWaited(s, a);
    ReadyPhases(s);
    StepKeepsFlushPhases(s, a);
    StepEnabled(s, a);
    OpenNeverCrashes(s, a);
  }

  lemma ReadyPhases(s: State)
    requires Ready(s)
    ensures Phases(s)
  {
  }

  lemma StepEnabled(s: State, a: Action)
    requires Step(s, a).Next?
    ensures Enabled(s, a) && !s.crashed
    ensures !Crashes(s, a) ==> Step(s, a).state == Effect(s, a)
  {
  }

  // ----- coming to rest -----

  /** Run selects, with nothing queued and no flush requested. */
  predicate AtRest(s: State) {
    s.run.Selecting? && |s.queue| == 0 && !s.flush
  }

  function Work(s: State): nat {
    8 * |s.queue| +
    match s.run
    case Handling(_) => 4
    case Checking => 3
    case Flushing => 2
    case Waking => 1
    case _ => 0
  }

  /** Calls stay where they are, except that a waiting Flush may be woken. */
  ghost predicate CallsStay(s: State, t: State) {
    forall c :: c in s.calls ==>
      && c in t.calls
      && (t.calls[c] == s.calls[c] || (s.calls[c] == FlushWaiting && t.calls[c] == FlushWoken))
  }

  /** A call that is waiting is still going to be woken. */
  predicate Due(s: State, d: Call) {
    At(s, d, FlushWaiting) ==> s.flush || s.run.Waking?
  }

  /** The next step of run; where it is to wake a Flush, it is d if d waits. */
  ghost function RunStep(s: State, d: Call): Action {
    match s.run
    case Selecting => ReceiveEntry
    case Handling(_) => HandleEntry
    case Checking => Check
    case Flushing => FlushHandler
    case _ => if At(s, d, FlushWaiting) then Wake(d) else if w :| At(s, w, FlushWaiting) then Wake(w) else Check
  }

  /** Run can always go on until it is at rest, and comes closer to it with each step. */
  lemma RunStepWorks(s: State, d: Call)
    requires Ready(s) && !AtRest(s)
    ensures var a := RunStep(s, d);
            && !NewCall(a) && Step(s, a).Next? && !Crashes(s, a)
            && Work(Step(s, a).state) < Work(s)
            && (forall c :: a == Wake(c) ==> At(s, c, FlushWaiting))
            && (a.Wake? || Moves(a) == map[])
  {
    hide Emits, FlushPhases;
    if s.run.Waking? && !At(s, d, FlushWaiting) {
      var w :| At(s, w, FlushWaiting);
    }
  }

  lemma RunStepKeeps(s: State, d: Call)
    requires Ready(s) && !AtRest(s)
    ensures var t := Step(s, RunStep(s, d)).state; CallsStay(s, t) && (Due(s, d) ==> Due(t, d))
  {
    hide Emits, FlushPhases, QueueAfter, RunAfter, Open, Waited, Work, AtRest, Enabled;
    var a := RunStep(s, d);
    RunStepWorks(s, d);
    StepEnabled(s, a);
    if s.flush || s.run.Waking? { RunStepFlush(s, d); }
    if At(s, d, FlushWaiting) && !a.Wake? { WaiterStays(s, a, d); }
  }

  lemma RunStepFlush(s: State, d: Call)
    requires Ready(s) && !AtRest(s) && (s.flush || s.run.Waking?)
    ensures var a := RunStep(s, d);
            && (At(s, d, FlushWaiting) && s.run.Waking? ==> a == Wake(d))
            && (!s.run.Waking? ==> Effect(s, a).flush || RunAfter(s, a).Waking?)
  {
    hide Emits, Moves;
  }

  lemma CallsStayOn(s: State, t: State, u: State)
    requires CallsStay(s, t) && CallsStay(t, u)
    ensures CallsStay(s, u)
  {
  }

  lemma GoesOnMore(actions: seq<Action>, more: seq<Action>, longer: seq<Action>)
    requires GoesOn(actions, more) && GoesOn(more, longer)
    ensures GoesOn(actions, longer)
  {
  }

  lemma GoesOnOne(actions: seq<Action>, a: Action)
    ensures !NewCall(a) ==> GoesOn(actions, actions + [a])
  {
  }

  /** Without any new call run comes to rest, waking d on the way if d waits for a flush requested. */
  lemma {:induction false} ComesToRest(capacity: nat, actions: seq<Action>, d: Call) returns (longer: seq<Action>)
    requires After(capacity, actions).Next? && Ready(After(capacity, actions).state)
    ensures GoesOn(actions, longer) && After(capacity, longer).Next?
    ensures var s, t := After(capacity, actions).state, After(capacity, longer).state;
            && Ready(t) && AtRest(t) && CallsStay(s, t)
            && (Due(s, d) ==> !At(t, d, FlushWaiting))
    decreases Work(After(capacity, actions).state)
  {
    hide Step, Ready, Work, NewCall, After, RunStep;
    var s := After(capacity, actions).state;
    if AtRest(s) {
      longer := actions;
    } else {
      var a := RunStep(s, d);
      RunStepWorks(s, d);
      RunStepKeeps(s, d);
      NotACall(a);
      StepKeepsReady(s, a);
      var more := AfterOne(capacity, actions, a);
      GoesOnOne(actions, a);
      longer := ComesToRest(capacity, more, d);
      CallsStayOn(s, After(capacity, more).state, After(capacity, longer).state);
      GoesOnMore(actions, more, longer);
    }
  }

  lemma NotACall(a: Action)
    requires !NewCall(a)
    ensures !a.CallClose?
  {
  }

  // ----- what calls can come to -----

  /** Every entry sent can be handled, and all of them at once. */
  lemma EntriesCanBeHandled(capacity: nat, actions: seq<Action>) returns (longer: seq<Action>)
    requires After(capacity, actions).Next? && CloseCalls(After(capacity, actions).state.trace) == 0
    ensures GoesOn(actions, longer) && After(capacity, longer).Next?
    ensures var s, t := After(capacity, actions).state, After(capacity, longer).state;
            && (forall c :: c in s.queue ==> Handled(c) in t.trace)
            && (forall c :: Sent(c) in s.trace ==> Handled(c) in t.trace)
  {
    hide After, Ready, CloseCalls, HandledCalls, SentCalls, Known;
    ReadyAlways(capacity, actions);
    longer := ComesToRest(capacity, actions, 0);
    var s, t := After(capacity, actions).state, After(capacity, longer).state;
    KnownAlways(capacity, actions);
    KnownAlways(capacity, longer);
    FifoAlways(capacity, actions);
    FifoAlways(capacity, longer);
    forall c | c in s.queue || Sent(c) in s.trace ensures Handled(c) in t.trace {
      SentIsListed(s, c);
      assert Known(s, c) && Known(t, c);
      SentStays(s, t, c);
      RestHandled(t, c);
    }
  }

  lemma {:induction false} SentIsCounted(trace: seq<Event>, c: Call)
    requires Sent(c) in trace
    ensures c in SentCalls(trace)
  {
    var k := |trace| - 1;
    assert trace == trace[..k] + [trace[k]];
    if trace[k] != Sent(c) {
      SentIsCounted(trace[..k], c);
    }
  }

  lemma SentIsListed(s: State, c: Call)
    requires Fifo(s) && (c in s.queue || Sent(c) in s.trace)
    ensures c in SentCalls(s.trace)
  {
    if Sent(c) in s.trace {
      SentIsCounted(s.trace, c);
    }
  }

  lemma SentStays(s: State, t: State, c: Call)
    requires CallsStay(s, t) && Known(s, c) && Known(t, c) && c in SentCalls(s.trace)
    ensures c in SentCalls(t.trace)
  {
  }

  lemma RestHandled(t: State, c: Call)
    requires AtRest(t) && Fifo(t) && c in SentCalls(t.trace)
    ensures Handled(c) in t.trace
  {
    hide HandledCalls, SentCalls;
    assert HandledCalls(t.trace) + [] + [] == HandledCalls(t.trace);
    var i := HandledIndex(t.trace, c);
  }

  lemma GoesOnBy(capacity: nat, actions: seq<Action>, more: seq<Action>, a: Action) returns (longer: seq<Action>)
    requires After(capacity, more).Next? && Ready(After(capacity, more).state)
    requires GoesOn(actions, more) && !NewCall(a) && Step(After(capacity, more).state, a).Next?
    ensures GoesOn(actions, longer) && After(capacity, longer) == Step(After(capacity, more).state, a)
    ensures After(capacity, longer).Next? && Ready(After(capacity, longer).state)
    ensures After(capacity, longer).state == Effect(After(capacity, more).state, a)
  {
    hide Step, Ready, NewCall, After;
    var s := After(capacity, more).state;
    longer := AfterOne(capacity, more, a);
    GoesOnOne(more, a);
    GoesOnMore(actions, more, longer);
    NotACall(a);
    StepKeepsReady(s, a);
    StepEnabled(s, a);
  }

  lemma GoesOnSame(actions: seq<Action>)
    ensures GoesOn(actions, actions)
  {
  }

  lemma StaysAt(s: State, t: State, c: Call, stage: Stage)
    requires CallsStay(s, t) && At(s, c, stage) && stage != FlushWaiting
    ensures At(t, c, stage)
  {
  }

  /** At rest an entry is taken: into the buffer, or without one straight by run. */
  lemma RestTakesEntry(s: State, c: Call) returns (a: Action)
    requires Ready(s) && AtRest(s) && At(s, c, LogStarted)
    ensures !NewCall(a) && Step(s, a).Next? && At(Effect(s, a), c, LogSent)
  {
    a := if s.capacity > 0 then SendEntry(c) else HandOver(c);
  }

  lemma LogReturns(s: State, c: Call)
    requires Ready(s) && At(s, c, LogSent)
    ensures Step(s, ReturnLog(c)).Next? && Effect(s, ReturnLog(c)).trace == s.trace + [LogReturned(c)]
  {
  }

  /** Every Log under way can return, its entry handled. */
  lemma LogCanReturn(capacity: nat, actions: seq<Action>, c: Call) returns (longer: seq<Action>)
    requires After(capacity, actions).Next? && CloseCalls(After(capacity, actions).state.trace) == 0
    requires At(After(capacity, actions).state, c, LogStarted) || At(After(capacity, actions).state, c, LogSent)
    ensures GoesOn(actions, longer) && After(capacity, longer).Next?
    ensures var t := After(capacity, longer).state; LogReturned(c) in t.trace && Handled(c) in t.trace
  {
    hide After, Ready, Step, CloseCalls, AtRest, CallsStay, GoesOn, Effect, Known, SentCalls, HandledCalls, NewCall, Fifo;
    ReadyAlways(capacity, actions);
    var sent := actions;
    if At(After(capacity, actions).state, c, LogStarted) {
      var rest := ComesToRest(capacity, actions, 0);
      StaysAt(After(capacity, actions).state, After(capacity, rest).state, c, LogStarted);
      var a := RestTakesEntry(After(capacity, rest).state, c);
      sent := GoesOnBy(capacity, actions, rest, a);
    } else {
      GoesOnSame(actions);
    }
    var done := ComesToRest(capacity, sent, 0);
    GoesOnMore(actions, sent, done);
    var t := After(capacity, done).state;
    StaysAt(After(capacity, sent).state, t, c, LogSent);
    SentIsHandled(capacity, done, c);
    LogReturns(t, c);
    longer := GoesOnBy(capacity, actions, done, ReturnLog(c)) by { IsReturn(c); }
  }

  lemma IsReturn(c: Call)
    ensures !NewCall(ReturnLog(c)) && !NewCall(ReturnFlush(c)) && !NewCall(SendFlush(c))
  {
  }

  lemma SentIsHandled(capacity: nat, actions: seq<Action>, c: Call)
    requires After(capacity, actions).Next? && AtRest(After(capacity, actions).state)
    requires At(After(capacity, actions).state, c, LogSent)
    ensures Handled(c) in After(capacity, actions).state.trace
  {
    hide After, AtRest, SentCalls, HandledCalls, Fifo;
    KnownAlways(capacity, actions);
    FifoAlways(capacity, actions);
    assert Known(After(capacity, actions).state, c);
    RestHandled(After(capacity, actions).state, c);
  }

  // ----- Flush, and the wake-up that can be lost -----

  /** d waits, but nothing has been requested that could wake it: its request was taken together with that
      of another Flush, and one handler flush wakes one of them. */
  ghost predicate Stuck(s: State, d: Call) {
    At(s, d, FlushWaiting) && !s.flush && !s.run.Waking? && forall e :: !At(s, e, FlushStarted)
  }

  lemma RestTakesFlush(s: State, d: Call)
    requires Ready(s) && AtRest(s) && At(s, d, FlushStarted)
    ensures Step(s, SendFlush(d)).Next?
    ensures var t := Effect(s, SendFlush(d)); At(t, d, FlushWaiting) && t.flush && forall e :: e != d && At(s, e, FlushWaiting) ==> At(t, e, FlushWaiting)
  {
  }

  lemma FlushReturns(s: State, d: Call)
    requires Ready(s) && At(s, d, FlushWoken)
    ensures Step(s, ReturnFlush(d)).Next? && Effect(s, ReturnFlush(d)).trace == s.trace + [FlushReturned(d)]
  {
  }

  lemma WaitsOrWoken(s: State, t: State, d: Call)
    requires CallsStay(s, t) && At(s, d, FlushWaiting)
    ensures At(t, d, FlushWaiting) || At(t, d, FlushWoken)
  {
  }

  /** A Flush that is due is woken and returns. */
  lemma DueCanReturn(capacity: nat, actions: seq<Action>, d: Call) returns (longer: seq<Action>)
    requires After(capacity, actions).Next? && Ready(After(capacity, actions).state)
    requires var s := After(capacity, actions).state; At(s, d, FlushWoken) || (At(s, d, FlushWaiting) && Due(s, d))
    ensures GoesOn(actions, longer) && After(capacity, longer).Next? && FlushReturned(d) in After(capacity, longer).state.trace
  {
    hide After, Ready, Step, AtRest, CallsStay, GoesOn, Effect, NewCall, Due;
    var s, woken := After(capacity, actions).state, actions;
    if At(s, d, FlushWaiting) {
      woken := ComesToRest(capacity, actions, d);
      WaitsOrWoken(s, After(capacity, woken).state, d);
    } else {
      GoesOnSame(actions);
    }
    FlushReturns(After(capacity, woken).state, d);
    longer := GoesOnBy(capacity, actions, woken, ReturnFlush(d)) by { IsReturn(d); }
  }

  /** If some Flush e, d or another, can still send its request, then d is woken with it. */
  lemma FlushCanReturnBy(capacity: nat, actions: seq<Action>, d: Call, e: Call) returns (longer: seq<Action>)
    requires After(capacity, actions).Next? && Ready(After(capacity, actions).state)
    requires var s := After(capacity, actions).state;
             At(s, e, FlushStarted) && (d == e || At(s, d, FlushWaiting))
    ensures GoesOn(actions, longer) && After(capacity, longer).Next? && FlushReturned(d) in After(capacity, longer).state.trace
  {
    hide After, Ready, Step, AtRest, CallsStay, GoesOn, Effect, NewCall;
    var rest := ComesToRest(capacity, actions, d);
    var s, t := After(capacity, actions).state, After(capacity, rest).state;
    StaysAt(s, t, e, FlushStarted);
    RestTakesFlush(t, e);
    if d != e { WaitsOrWoken(s, t, d); }
    if d != e && At(t, d, FlushWoken) {
      longer := DueCanReturn(capacity, rest, d);
      GoesOnMore(actions, rest, longer);
    } else {
      var sent := GoesOnBy(capacity, actions, rest, SendFlush(e)) by { IsReturn(e); }
      longer := DueCanReturn(capacity, sent, d);
      GoesOnMore(actions, sent, longer);
    }
  }

  /** A Flush under way can return, with no call beginning in between, unless it is stuck. */
  lemma FlushCanReturn(capacity: nat, actions: seq<Action>, d: Call) returns (longer: seq<Action>)
    requires After(capacity, actions).Next? && CloseCalls(After(capacity, actions).state.trace) == 0
    requires var s := After(capacity, actions).state;
             && !Stuck(s, d)
             && (At(s, d, FlushStarted) || At(s, d, FlushWaiting) || At(s, d, FlushWoken))
    ensures GoesOn(actions, longer) && After(capacity, longer).Next? && FlushReturned(d) in After(capacity, longer).state.trace
  {
    hide After, Ready, CloseCalls, GoesOn;
    ReadyAlways(capacity, actions);
    var s := After(capacity, actions).state;
    if At(s, d, FlushStarted) {
      longer := FlushCanReturnBy(capacity, actions, d, d);
    } else if At(s, d, FlushWoken) || Due(s, d) {
      longer := DueCanReturn(capacity, actions, d);
    } else {
      var e :| At(s, e, FlushStarted);
      longer := FlushCanReturnBy(capacity, actions, d, e);
    }
  }

  lemma NoFlushBegins(s: State, a: Action, e: Call)
    requires Enabled(s, a) && !a.CallFlush? && !At(s, e, FlushStarted)
    ensures !At(Effect(s, a), e, FlushStarted)
  {
    hide RunAfter, QueueAfter, Emits;
  }

  lemma StuckStays(s: State, a: Action, d: Call)
    requires Ready(s) && Stuck(s, d) && Step(s, a).Next? && !NewCall(a)
    ensures Stuck(Step(s, a).state, d)
  {
    hide Emits, Waited, QueueAfter;
    OpenNeverCrashes(s, a);
    forall e ensures !At(Effect(s, a), e, FlushStarted) {
      NoFlushBegins(s, a, e);
    }
    WaiterStays(s, a, d);
  }

  /** And if it is stuck it stays so until another call begins. */
  lemma {:induction false} StuckAlways(capacity: nat, actions: seq<Action>, longer: seq<Action>, d: Call)
    requires After(capacity, actions).Next? && Ready(After(capacity, actions).state) && Stuck(After(capacity, actions).state, d)
    requires GoesOn(actions, longer) && After(capacity, longer).Next?
    ensures Ready(After(capacity, longer).state) && Stuck(After(capacity, longer).state, d)
    decreases |longer|
  {
    hide Step, Ready, Stuck, NewCall;
    if |longer| > |actions| {
      var k := |longer| - 1;
      StuckAlways(capacity, actions, longer[..k], d);
      NotACall(longer[k]);
      StepKeepsReady(After(capacity, longer[..k]).state, longer[k]);
      StuckStays(After(capacity, longer[..k]).state, longer[k], d);
    } else {
      assert longer == actions;
    }
  }

  /** Exactly which Flush calls under way can return without another call. */
  lemma FlushReturnsExactly(capacity: nat, actions: seq<Action>, d: Call)
    requires After(capacity, actions).Next? && CloseCalls(After(capacity, actions).state.trace) == 0
    requires var s := After(capacity, actions).state; InFlush(s, d) && !At(s, d, FlushDone)
    ensures (exists longer :: GoesOn(actions, longer) && After(capacity, longer).Next?
                              && FlushReturned(d) in After(capacity, longer).state.trace)
            <==> !Stuck(After(capacity, actions).state, d)
  {
    hide After, Ready, CloseCalls, GoesOn;
    ReadyAlways(capacity, actions);
    if Stuck(After(capacity, actions).state, d) {
      forall longer | GoesOn(actions, longer) && After(capacity, longer).Next?
        ensures FlushReturned(d) !in After(capacity, longer).state.trace
      {
        StuckAlways(capacity, actions, longer, d);
        SeenAlways(capacity, longer, d);
      }
    } else {
      var longer := FlushCanReturn(capacity, actions, d);
    }
  }

  /** Another call of Flush frees it: every Flush under way can return once one more begins. */
  lemma FlushCanReturnWithHelp(capacity: nat, actions: seq<Action>, d: Call, e: Call) returns (longer: seq<Action>)
    requires After(capacity, actions).Next? && CloseCalls(After(capacity, actions).state.trace) == 0
    requires var s := After(capacity, actions).state; InFlush(s, d) && !At(s, d, FlushDone) && e !in s.calls
    ensures GoesOn(actions + [CallFlush(e)], longer)
    ensures After(capacity, longer).Next? && FlushReturned(d) in After(capacity, longer).state.trace
  {
    hide After, Ready, Step, CloseCalls, GoesOn, Open, Waited, FlushPhases;
    ReadyAlways(capacity, actions);
    var s := After(capacity, actions).state;
    ReadyRuns(s);
    DoCallFlush(s, e);
    var more := AfterOne(capacity, actions, CallFlush(e));
    StepKeepsReady(s, CallFlush(e));
    if At(s, d, FlushWoken) {
      longer := DueCanReturn(capacity, more, d);
    } else if At(s, d, FlushStarted) {
      longer := FlushCanReturnBy(capacity, more, d, d);
    } else {
      longer := FlushCanReturnBy(capacity, more, d, e);
    }
  }

  lemma ReadyRuns(s: State)
    requires Ready(s)
    ensures !s.crashed && !s.stop && !s.stopClosed && !s.flushClosed && !s.flushWaitClosed && !s.queueClosed
  {
  }

  // ----- a Flush that is stuck -----

  /** Without a buffer there is at most one waiting Flush, and it has been requested. */
  ghost predicate OneWaits(s: State) {
    s.capacity == 0 ==>
      && (forall d :: At(s, d, FlushWaiting) ==> s.flush || s.run.Waking?)
      && (forall d, e :: At(s, d, FlushWaiting) && At(s, e, FlushWaiting) ==> d == e)
  }

  lemma WaitsFromSending(s: State, a: Action, d: Call)
    requires Enabled(s, a) && At(Effect(s, a), d, FlushWaiting)
    ensures At(s, d, FlushWaiting) || (a == SendFlush(d) && (s.flushClosed || s.run.Selecting?))
    ensures a != Wake(d)
  {
    hide RunAfter, QueueAfter, Emits;
  }

  lemma WakeRuns(s: State, a: Action)
    requires Enabled(s, a) && a.Wake?
    ensures s.run.Waking? && At(s, a.c, FlushWaiting)
  {
  }

  lemma StepKeepsOneWaits(s: State, a: Action)
    requires Ready(s) && OneWaits(s) && Step(s, a).Next? && !a.CallClose?
    ensures OneWaits(Step(s, a).state)
  {
    hide Emits, Crashes, Enabled, RunAfter, QueueAfter, At, Open, Moves;
    OpenNeverCrashes(s, a);
    ReadyRuns(s);
    var t := Effect(s, a);
    if s.capacity == 0 {
      if a.Wake? { WakeRuns(s, a); }
      forall d | At(t, d, FlushWaiting)
        ensures t.flush || t.run.Waking?
        ensures At(s, d, FlushWaiting) || (a == SendFlush(d) && s.run.Selecting?)
      {
        WaitsFromSending(s, a, d);
        if a.FlushHandler? { HandlerWakes(s, a); }
        if s.run.Waking? && !a.Wake? { WakingStays(s, a); }
      }
    }
  }

  lemma HandlerWakes(s: State, a: Action)
    requires a.FlushHandler?
    ensures Effect(s, a).run.Waking?
  {
  }

  lemma WakingStays(s: State, a: Action)
    requires Enabled(s, a) && Open(s) && s.run.Waking? && !a.Wake?
    ensures Effect(s, a).run.Waking?
  {
    hide At, QueueAfter, Emits, Moves, InClose;
    OpenNeverCrashes(s, a);
  }

  lemma {:induction false} OneWaitsAlways(capacity: nat, actions: seq<Action>)
    requires After(capacity, actions).Next? && CloseCalls(After(capacity, actions).state.trace) == 0
    ensures OneWaits(After(capacity, actions).state) && After(capacity, actions).state.capacity == capacity
  {
    hide Step, Ready, OneWaits, CloseCalls;
    FifoAlways(capacity, actions);
    if actions == [] {
      InitWaits(capacity);
    } else {
      var k := |actions| - 1;
      var s, a := After(capacity, actions[..k]).state, actions[k];
      NoCloseBefore(s, a);
      ReadyAlways(capacity, actions[..k]);
      OneWaitsAlways(capacity, actions[..k]);
      StepKeepsOneWaits(s, a);
    }
  }

  lemma InitWaits(capacity: nat)
    ensures OneWaits(Init(capacity))
  {
  }

  lemma DoSendFlush(s: State, c: Call)
    requires !s.crashed && At(s, c, FlushStarted) && !s.flushClosed && s.run.Selecting?
    ensures Step(s, SendFlush(c)) == Next(s.(flush := true, run := Checking, calls := s.calls[c := FlushWaiting]))
  {
    assert s.trace + [] == s.trace;
  }

  lemma DoCheckFlush(s: State)
    requires !s.crashed && s.run.Checking? && s.flush
    ensures Step(s, Check) == Next(s.(run := if |s.queue| == 0 then Flushing else Selecting))
  {
    assert s.trace + [] == s.trace;
  }

  lemma DoReceiveEntry(s: State)
    requires !s.crashed && s.run.Selecting? && |s.queue| > 0
    ensures Step(s, ReceiveEntry) == Next(s.(run := Handling(s.queue[0]), queue := s.queue[1..]))
  {
    assert s.trace + [] == s.trace;
  }

  lemma DoHandleEntry(s: State)
    requires !s.crashed && s.run.Handling?
    ensures Step(s, HandleEntry) == Next(s.(run := Checking, trace := s.trace + [Handled(s.run.entry)]))
  {
  }

  lemma DoFlushHandler(s: State)
    requires !s.crashed && s.run.Flushing?
    ensures Step(s, FlushHandler) == Next(s.(run := Waking, flush := false, trace := s.trace + [HandlerFlushed]))
  {
  }

  lemma DoWake(s: State, c: Call)
    requires !s.crashed && s.run.Waking? && At(s, c, FlushWaiting)
    ensures Step(s, Wake(c)) == Next(s.(run := Selecting, calls := s.calls[c := FlushWoken]))
  {
    assert s.trace + [] == s.trace;
  }

  lemma FirstEntry(capacity: nat) returns (actions: seq<Action>)
    requires capacity > 0
    ensures After(capacity, actions) ==
            Next(Init(capacity).(queue := [0], calls := map[0 := LogSent], trace := [LogCalled(0), Sent(0)]))
  {
    assert After(capacity, []) == Next(Init(capacity));
    hide After, Step;
    actions := [];
    DoCallLog(After(capacity, actions).state, 0);
    actions := AfterOne(capacity, actions, CallLog(0));
    DoSendEntry(After(capacity, actions).state, 0);
    actions := AfterOne(capacity, actions, SendEntry(0));
  }

  /** An entry is queued, and two Flush calls have begun. */
  lemma EntryThenFlushes(capacity: nat) returns (actions: seq<Action>)
    requires capacity > 0
    ensures After(capacity, actions).Next?
    ensures var s := After(capacity, actions).state;
            && !s.crashed && !s.flushClosed && s.run.Selecting? && s.queue == [0]
            && s.calls == map[0 := LogSent, 1 := FlushStarted, 2 := FlushStarted]
            && s.trace == [LogCalled(0), Sent(0), FlushCalled(1), FlushCalled(2)]
  {
    hide After, Step;
    actions := FirstEntry(capacity);
    DoCallFlush(After(capacity, actions).state, 1);
    actions := AfterOne(capacity, actions, CallFlush(1));
    DoCallFlush(After(capacity, actions).state, 2);
    actions := AfterOne(capacity, actions, CallFlush(2));
  }

  /** Both are requested before run gets to the end of the queue. */
  lemma BothRequested(capacity: nat) returns (actions: seq<Action>)
    requires capacity > 0
    ensures After(capacity, actions).Next?
    ensures var s := After(capacity, actions).state;
            && !s.crashed && s.flush && s.run.Selecting? && s.queue == [0]
            && s.calls == map[0 := LogSent, 1 := FlushWaiting, 2 := FlushWaiting]
            && s.trace == [LogCalled(0), Sent(0), FlushCalled(1), FlushCalled(2)]
  {
    hide After, Step;
    actions := EntryThenFlushes(capacity);
    DoSendFlush(After(capacity, actions).state, 1);
    actions := AfterOne(capacity, actions, SendFlush(1));
    DoCheckFlush(After(capacity, actions).state);
    actions := AfterOne(capacity, actions, Check);
    DoSendFlush(After(capacity, actions).state, 2);
    actions := AfterOne(capacity, actions, SendFlush(2));
    DoCheckFlush(After(capacity, actions).state);
    actions := AfterOne(capacity, actions, Check);
  }

  /** One handler flush serves both, and one of them is woken. */
  lemma LostWake(capacity: nat) returns (actions: seq<Action>)
    requires capacity > 0
    ensures After(capacity, actions).Next? && CloseCalls(After(capacity, actions).state.trace) == 0
    ensures Stuck(After(capacity, actions).state, 2)
  {
    hide After, Step;
    actions := BothRequested(capacity);
    DoReceiveEntry(After(capacity, actions).state);
    actions := AfterOne(capacity, actions, ReceiveEntry);
    DoHandleEntry(After(capacity, actions).state);
    actions := AfterOne(capacity, actions, HandleEntry);
    DoCheckFlush(After(capacity, actions).state);
    actions := AfterOne(capacity, actions, Check);
    DoFlushHandler(After(capacity, actions).state);
    actions := AfterOne(capacity, actions, FlushHandler);
    DoWake(After(capacity, actions).state, 1);
    actions := AfterOne(capacity, actions, Wake(1));
    NoCloseCalls(After(capacity, actions).state.trace);
  }

  /** A Flush can get stuck exactly when the queue has a buffer. */
  lemma StuckExactly(capacity: nat)
    ensures (exists actions, d :: After(capacity, actions).Next? && CloseCalls(After(capacity, actions).state.trace) == 0
                                  && Stuck(After(capacity, actions).state, d))
            <==> capacity > 0
  {
    hide After, CloseCalls;
    if capacity > 0 {
      var actions := LostWake(capacity);
    } else {
      forall actions, d | After(capacity, actions).Next? && CloseCalls(After(capacity, actions).state.trace) == 0
        ensures !Stuck(After(capacity, actions).state, d)
      {
        OneWaitsAlways(capacity, actions);
      }
    }
  }

  // ----- Close -----

  lemma DoAcknowledge(s: State, c: Call)
    requires !s.crashed && s.run.Acking? && At(s, c, CloseWaiting) && !s.stopClosed
    ensures Step(s, Acknowledge(c)) == Next(s.(run := Stopped, calls := s.calls[c := CloseAcked]))
  {
    assert s.trace + [] == s.trace;
  }

  lemma DoWakeByClose(s: State, c: Call)
    requires !s.crashed && s.flushWaitClosed && At(s, c, FlushWaiting)
    ensures Step(s, WakeByClose(c)) == Next(s.(calls := s.calls[c := FlushWoken]))
  {
    assert s.trace + [] == s.trace;
  }

  lemma DoReturnFlush(s: State, c: Call)
    requires !s.crashed && At(s, c, FlushWoken)
    ensures Step(s, ReturnFlush(c)) == Next(s.(calls := s.calls[c := FlushDone], trace := s.trace + [FlushReturned(c)]))
  {
  }

  /** At rest Close has run stop. */
  lemma CloseStopsRun(capacity: nat, actions: seq<Action>, d: Call) returns (longer: seq<Action>)
    requires After(capacity, actions).Next?
    requires var s := After(capacity, actions).state; Ready(s) && AtRest(s) && d !in s.calls
    ensures GoesOn(actions + [CallClose(d)], longer) && After(capacity, longer).Next?
    ensures var s, t := After(capacity, actions).state, After(capacity, longer).state;
            && !t.crashed && !t.stopClosed && t.flushWaitClosed && t.calls == s.calls[d := CloseAcked]
  {
    hide After, Step, Ready;
    ReadyRuns(After(capacity, actions).state);
    DoCallClose(After(capacity, actions).state, d);
    longer := AfterOne(capacity, actions, CallClose(d));
    DoSendStop(After(capacity, longer).state, d);
    longer := AfterOne(capacity, longer, SendStop(d));
    DoCheck(After(capacity, longer).state);
    longer := AfterOne(capacity, longer, Check);
    DoCloseFlush(After(capacity, longer).state);
    longer := AfterOne(capacity, longer, CloseFlush);
    DoCloseFlushWait(After(capacity, longer).state);
    longer := AfterOne(capacity, longer, CloseFlushWait);
    DoCloseQueue(After(capacity, longer).state);
    longer := AfterOne(capacity, longer, CloseQueue);
    DoAcknowledge(After(capacity, longer).state, d);
    longer := AfterOne(capacity, longer, Acknowledge(d));
  }

  /** From every state before Close, a Close that begins when run has come to rest can go through to the wrapped
      handler; every entry sent has then been handled. */
  lemma CloseCanComplete(capacity: nat, actions: seq<Action>, d: Call) returns (rest: seq<Action>, longer: seq<Action>)
    requires After(capacity, actions).Next? && CloseCalls(After(capacity, actions).state.trace) == 0
    requires d !in After(capacity, actions).state.calls
    ensures GoesOn(actions, rest) && GoesOn(rest + [CallClose(d)], longer) && After(capacity, longer).Next?
    ensures HandlerClosed(d) in After(capacity, longer).state.trace
  {
    hide After, Step, Ready, AtRest, CloseCalls, GoesOn, NewCall;
    ReadyAlways(capacity, actions);
    rest := ComesToRest(capacity, actions, 0);
    NoCallBegins(capacity, actions, rest, d);
    var stopped := CloseStopsRun(capacity, rest, d);
    DoCloseStop(After(capacity, stopped).state, d);
    var closing := AfterOne(capacity, stopped, CloseStop(d));
    DoCloseHandler(After(capacity, closing).state, d);
    longer := AfterOne(capacity, closing, CloseHandler(d));
    IsClosing(d);
    GoesOnOne(stopped, CloseStop(d));
    GoesOnOne(closing, CloseHandler(d));
    GoesOnMore(rest + [CallClose(d)], stopped, closing);
    GoesOnMore(rest + [CallClose(d)], closing, longer);
  }

  lemma IsClosing(d: Call)
    ensures !NewCall(CloseStop(d)) && !NewCall(CloseHandler(d)) && !NewCall(WakeByClose(d)) && !NewCall(ReturnFlush(d))
  {
  }

  lemma StepBegins(s: State, a: Action, d: Call)
    requires Step(s, a).Next? && !NewCall(a) && d !in s.calls
    ensures d !in Step(s, a).state.calls
  {
    hide RunAfter, QueueAfter, Emits, Enabled, Moves;
    StepEnabled(s, a);
    if !Crashes(s, a) && d in Moves(a) { Moved(s, a, d); }
  }

  /** A call is in the state only when it has begun. */
  lemma {:induction false} NoCallBegins(capacity: nat, actions: seq<Action>, longer: seq<Action>, d: Call)
    requires After(capacity, actions).Next? && After(capacity, longer).Next? && GoesOn(actions, longer)
    requires d !in After(capacity, actions).state.calls
    ensures d !in After(capacity, longer).state.calls
    decreases |longer|
  {
    hide Step, NewCall;
    if |longer| > |actions| {
      var k := |longer| - 1;
      NoCallBegins(capacity, actions, longer[..k], d);
      StepBegins(After(capacity, longer[..k]).state, longer[k], d);
    } else {
      assert longer == actions;
    }
  }

  /** Close frees a waiting Flush, stuck or not, by closing its channel. */
  lemma CloseFreesFlush(capacity: nat, actions: seq<Action>, d: Call, e: Call) returns (rest: seq<Action>, longer: seq<Action>)
    requires After(capacity, actions).Next? && CloseCalls(After(capacity, actions).state.trace) == 0
    requires d !in After(capacity, actions).state.calls && At(After(capacity, actions).state, e, FlushWaiting)
    ensures GoesOn(actions, rest) && GoesOn(rest + [CallClose(d)], longer) && After(capacity, longer).Next?
    ensures FlushReturned(e) in After(capacity, longer).state.trace
  {
    hide After, Step, Ready, AtRest, CloseCalls, GoesOn, NewCall, CallsStay;
    ReadyAlways(capacity, actions);
    rest := ComesToRest(capacity, actions, d);
    NoCallBegins(capacity, actions, rest, d);
    WaitsOrWoken(After(capacity, actions).state, After(capacity, rest).state, e);
    var woken := CloseStopsRun(capacity, rest, d);
    IsClosing(e);
    if At(After(capacity, woken).state, e, FlushWaiting) {
      var stopped := woken;
      DoWakeByClose(After(capacity, stopped).state, e);
      woken := AfterOne(capacity, stopped, WakeByClose(e));
      GoesOnOne(stopped, WakeByClose(e));
      GoesOnMore(rest + [CallClose(d)], stopped, woken);
    }
    DoReturnFlush(After(capacity, woken).state, e);
    longer := AfterOne(capacity, woken, ReturnFlush(e));
    GoesOnOne(woken, ReturnFlush(e));
    GoesOnMore(rest + [CallClose(d)], woken, longer);
  }
}
