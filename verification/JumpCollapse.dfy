// Exactly when a press and its release reach the game in one batch, which the comment at src/tick.cpp:106-108 says never
// happens: in one step, over every run, and in a run of calls that shows it.

module JumpCollapse {
  import opened Wrappers
  import opened Keyboard
  import opened KeyDelivery
  import opened JumpReset
  import opened JumpBatches

  // A press and its release are together in what is pending, or were in some batch handed over.
  predicate Collapsed(b: Board) {
    Collapses(b.pending) || exists i :: 0 <= i < |b.batches| && Collapses(b.batches[i])
  }

  // The press of the key that is held has not been handed over yet.
  predicate PressWaits(r: Reaction, b: Board)
    requires |b.held| == KEYS
  {
    r.holding && InRange(r.heldKey) && b.held[r.heldKey] && Transition(r.heldKey, true) in b.pending
  }

  // ---- What is together stays together: pending transitions go out as one batch

  predicate Later(b: Board, c: Board) {
    && b.batches <= c.batches
    && if |c.batches| == |b.batches| then b.pending <= c.pending else b.pending <= c.batches[|b.batches|]
  }

  lemma LaterTwice(a: Board, b: Board, c: Board)
    requires Later(a, b) && Later(b, c)
    ensures Later(a, c)
  {
  }

  lemma PrefixCollapses(p: seq<Transition>, q: seq<Transition>)
    requires p <= q && Collapses(p)
    ensures Collapses(q)
  {
    var i, j :| 0 <= i < j < |p| && p[i].down && !p[j].down && p[i].key == p[j].key;
    assert q[i].down && !q[j].down && q[i].key == q[j].key;
  }

  lemma CollapsedStays(b: Board, c: Board)
    requires Later(b, c) && Collapsed(b)
    ensures Collapsed(c)
  {
    hide Collapses;
    if Collapses(b.pending) {
      PrefixCollapses(b.pending, if |c.batches| == |b.batches| then c.pending else c.batches[|b.batches|]);
    } else {
      var i :| 0 <= i < |b.batches| && Collapses(b.batches[i]);
      assert c.batches[i] == b.batches[i];
    }
  }

  lemma QueueLater(b: Board, key: int, down: bool)
    requires |b.held| == KEYS
    ensures Later(b, Queue(b, key, down))
  {
  }

  lemma FlushLater(b: Board)
    requires Sized(b)
    ensures Later(b, Flush(b))
  {
    hide Deliver;
  }

  lemma {:induction false} ReleaseEachLater(b: Board, keys: seq<int>)
    requires |b.held| == KEYS
    ensures Later(b, ReleaseEach(b, keys))
    decreases keys
  {
    hide Queue;
    if keys != [] {
      QueueLater(b, keys[0], false);
      ReleaseEachLater(Queue(b, keys[0], false), keys[1..]);
      LaterTwice(b, Queue(b, keys[0], false), ReleaseEach(b, keys));
    }
  }

  lemma ReleaseAllLater(b: Board)
    requires Sized(b)
    ensures Later(b, ReleaseAll(b))
  {
    hide Later, Flush, ReleaseEach, StuckFrom;
    ReleaseEachSized(b, StuckFrom(b.held, 0));
    var c := ReleaseEach(b, StuckFrom(b.held, 0));
    ReleaseEachLater(b, StuckFrom(b.held, 0));
    FlushLater(c);
    LaterTwice(b, c, Flush(c));
  }

  lemma SetInjectModeLater(b: Board, mode: Mode)
    requires Sized(b)
    ensures Later(b, SetInjectMode(b, mode))
  {
    hide ReleaseAll;
    ReleaseAllLater(b);
  }

  lemma AbortLater(r: Reaction, b: Board)
    requires Sized(b)
    ensures Later(b, AbortSequence(r, b).1)
  {
    hide Queue;
    QueueLater(b, r.heldKey, false);
  }

  lemma HurtLater(r: Reaction, b: Board, now: int, d: HitDraws)
    requires Sized(b)
    ensures Later(b, OnHurt(r, b, now, d).1)
  {
    hide AbortSequence;
    AbortLater(r, b);
  }

  lemma ActLater(r: Reaction, b: Board, now: int, d: ActDraws)
    requires Sized(b)
    ensures Later(b, OnAct(r, b, now, d).1)
  {
    hide Queue;
    QueueLater(b, r.heldKey, true);
    QueueLater(b, r.heldKey, false);
  }

  lemma ConfiguredLater(r: Reaction, b: Board, c: Config)
    requires Sized(b)
    ensures Later(b, OnConfigured(r, b, c).1)
  {
    hide Later, AbortSequence, SetInjectMode;
    var b1 := SetInjectMode(b, c.mode);
    var r1 := r.(config := c);
    SetInjectModeLater(b, c.mode);
    AbortLater(r1, b1);
    var aborted := AbortSequence(r1, b1);
    AbortLater(aborted.0, aborted.1);
    LaterTwice(b, b1, aborted.1);
    LaterTwice(b, aborted.1, AbortSequence(aborted.0, aborted.1).1);
  }

  lemma ApplyLater(s: State, op: Op)
    requires Sized(s.b)
    ensures Later(s.b, Apply(s, op).b)
  {
    hide OnHurt, OnAct, OnConfigured, Flush, ReleaseAll;
    match op {
      case Hit(now, d) => HurtLater(s.r, s.b, now, d);
      case AutoFire(at, d) => HurtLater(s.r.(lastAutoFire := s.tick), s.b, at, d);
      case DebugKey(down, at, d) => HurtLater(s.r.(debugKeyWasDown := down), s.b, at, d);
      case Act(d) => ActLater(s.r, s.b, s.tick, d);
      case HandOver => FlushLater(s.b);
      case Configure(c) => ConfiguredLater(s.r, s.b, c);
      case ReleaseKeys => ReleaseAllLater(s.b);
      case _ =>
    }
  }

  // ---- One operation at a time

  lemma QueueCollapsesExactly(b: Board, key: int, down: bool)
    requires Sized(b) && !Collapsed(b)
    ensures Collapsed(Queue(b, key, down))
       <==> !down && InRange(key) && b.held[key] && Transition(key, true) in b.pending
  {
    hide Collapses;
    CollapsesExactly(b, key, down);
  }

  lemma FlushKeepsApart(b: Board)
    requires Sized(b)
    ensures Collapsed(Flush(b)) <==> Collapsed(b)
  {
    hide Collapses, Deliver;
    EmptyNeverCollapses();
    if Ready(b) && b.pending != [] {
      assert Flush(b).batches[|b.batches|] == b.pending;
    }
    if Collapsed(b) {
      FlushLater(b);
      CollapsedStays(b, Flush(b));
    }
  }

  lemma EmptyNeverCollapses()
    ensures !Collapses([])
  {
  }

  lemma AbortCollapsesExactly(r: Reaction, b: Board)
    requires Sized(b) && !Collapsed(b)
    ensures Collapsed(AbortSequence(r, b).1) <==> PressWaits(r, b)
  {
    hide Collapsed, Queue;
    QueueCollapsesExactly(b, r.heldKey, false);
  }

  // A hit: it cancels a sequence whose press has not been handed over yet.
  lemma HitCollapsesExactly(r: Reaction, b: Board, now: int, d: HitDraws)
    requires Safe(r, b) && !Collapsed(b)
    ensures Sized(b)
    ensures Collapsed(OnHurt(r, b, now, d).1) <==> Rolls(r, now) && d.pass && PressWaits(r, b)
  {
    hide Kept, Collapsed, AbortSequence, Rolls;
    KeptSized(b);
    AbortCollapsesExactly(r, b);
  }

  // The module's visit: it is time to release a key whose press has not been handed over yet.
  lemma ActCollapsesExactly(r: Reaction, b: Board, now: int, d: ActDraws)
    requires Safe(r, b) && !Collapsed(b)
    ensures Sized(b)
    ensures Collapsed(OnAct(r, b, now, d).1) <==> r.nextActionAt <= now && PressWaits(r, b)
  {
    hide Kept, Collapsed, Queue;
    KeptSized(b);
    QueueCollapsesExactly(b, r.heldKey, true);
    QueueCollapsesExactly(b, r.heldKey, false);
  }

  lemma {:induction false} ReleaseEachCollapsesExactly(b: Board, keys: seq<int>)
    requires Sized(b) && !Collapsed(b)
    ensures Collapsed(ReleaseEach(b, keys))
       <==> exists k :: k in keys && InRange(k) && b.held[k] && Transition(k, true) in b.pending
    decreases keys
  {
    hide Collapsed, Queue;
    if keys != [] {
      var k0 := keys[0];
      var c := Queue(b, k0, false);
      QueueSized(b, k0, false);
      QueueCollapsesExactly(b, k0, false);
      if Collapsed(c) {
        ReleaseEachLater(c, keys[1..]);
        CollapsedStays(c, ReleaseEach(b, keys));
        assert k0 in keys;
      } else {
        ReleaseEachCollapsesExactly(c, keys[1..]);
        QueueLogs(b, k0, false);
        QueuePresses(b, k0);
        forall k
          ensures (k in keys && InRange(k) && b.held[k] && Transition(k, true) in b.pending)
             <==> (k in keys[1..] && InRange(k) && c.held[k] && Transition(k, true) in c.pending)
        {
        }
      }
    }
  }

  lemma QueuePresses(b: Board, key: int)
    requires |b.held| == KEYS
    ensures forall k :: Transition(k, true) in Queue(b, key, false).pending <==> Transition(k, true) in b.pending
  {
  }

  // Stopping, and every change of the inject mode: whatever the sequence was up to.
  lemma StopCollapsesExactly(r: Reaction, b: Board)
    requires Safe(r, b) && !Collapsed(b)
    ensures Sized(b)
    ensures Collapsed(ReleaseAll(b)) <==> PressWaits(r, b)
  {
    hide Kept, Collapsed, ReleaseEach, StuckFrom, Flush;
    KeptSized(b);
    var keys := StuckFrom(b.held, 0);
    ReleaseEachSized(b, keys);
    ReleaseEachCollapsesExactly(b, keys);
    FlushKeepsApart(ReleaseEach(b, keys));
    forall k
      ensures k in keys <==> 0 <= k < KEYS && b.held[k]
    {
      StuckAreHeld(b.held, 0, k);
    }
  }

  // Settings that change the mode, switch the module off or change the key.
  predicate Interrupts(r: Reaction, b: Board, c: Config) {
    c.mode != b.mode || !c.enabled || c.key != r.heldKey
  }

  lemma ConfiguredCollapsesExactly(r: Reaction, b: Board, c: Config)
    requires Safe(r, b) && !Collapsed(b)
    ensures Sized(b)
    ensures Collapsed(OnConfigured(r, b, c).1) <==> PressWaits(r, b) && Interrupts(r, b, c)
  {
    KeptSizedOf(r, b);
    if c.mode == b.mode {
      SameModeCollapsesExactly(r, b, c);
    } else {
      NewModeCollapsesExactly(r, b, c);
    }
  }

  lemma KeptSizedOf(r: Reaction, b: Board)
    requires Safe(r, b)
    ensures Sized(b)
  {
    hide Kept;
    KeptSized(b);
  }

  lemma SameModeCollapsesExactly(r: Reaction, b: Board, c: Config)
    requires Safe(r, b) && Sized(b) && !Collapsed(b) && c.mode == b.mode
    ensures Collapsed(OnConfigured(r, b, c).1) <==> PressWaits(r, b) && (!c.enabled || c.key != r.heldKey)
  {
    hide Kept, Collapsed, Queue, ReleaseAll;
    AbortCollapsesExactly(r.(config := c), b);
  }

  lemma NewModeCollapsesExactly(r: Reaction, b: Board, c: Config)
    requires Safe(r, b) && Sized(b) && !Collapsed(b) && c.mode != b.mode
    ensures Collapsed(OnConfigured(r, b, c).1) <==> PressWaits(r, b)
  {
    hide Kept, Collapsed, AbortSequence, ReleaseAll, Later;
    var r1, b1 := r.(config := c), SetInjectMode(b, c.mode);
    StopCollapsesExactly(r, b);
    ModeKeepsApart(ReleaseAll(b), c.mode);
    ReleaseAllReleases(b);
    var aborted := AbortSequence(r1, b1);
    AbortLater(r1, b1);
    AbortLater(aborted.0, aborted.1);
    LaterTwice(b1, aborted.1, AbortSequence(aborted.0, aborted.1).1);
    if Collapsed(b1) {
      CollapsedStays(b1, aborted.1);
      CollapsedStays(b1, AbortSequence(aborted.0, aborted.1).1);
    } else {
      AbortCollapsesExactly(r1, b1);
      AbortedTwice(r1, b1);
    }
  }

  lemma ModeKeepsApart(b: Board, mode: Mode)
    ensures Collapsed(b.(mode := mode)) <==> Collapsed(b)
  {
    hide Collapses;
  }

  lemma AbortedTwice(r: Reaction, b: Board)
    requires Sized(b)
    ensures var s := AbortSequence(r, b); AbortSequence(s.0, s.1) == s
  {
    hide Queue;
  }

  // ---- Every step, and every run

  // The step queues the release of the key that is held.
  predicate Releases(s: State, op: Op) {
    match op
    case Act(_) => s.r.nextActionAt <= s.tick
    case Configure(c) => Interrupts(s.r, s.b, c)
    case ReleaseKeys => true
    case _ => Passes(s, op)
  }

  predicate ReleasesTooSoon(s: State, op: Op)
    requires Sized(s.b)
  {
    PressWaits(s.r, s.b) && Releases(s, op)
  }

  lemma StepCollapsesExactly(s: State, op: Op)
    requires Safe(s.r, s.b) && Sized(s.b) && !Collapsed(s.b)
    ensures Collapsed(Apply(s, op).b) <==> ReleasesTooSoon(s, op)
  {
    hide Safe, Collapsed, OnHurt, OnAct, OnConfigured, Flush, ReleaseAll, Rolls, Interrupts;
    match op {
      case Hit(now, d) => HitCollapsesExactly(s.r, s.b, now, d);
      case AutoFire(at, d) => PolledHitCollapses(s.r.(lastAutoFire := s.tick), s.r, s.b, at, d);
      case DebugKey(down, at, d) => PolledHitCollapses(s.r.(debugKeyWasDown := down), s.r, s.b, at, d);
      case Act(d) => ActCollapsesExactly(s.r, s.b, s.tick, d);
      case HandOver => FlushKeepsApart(s.b);
      case Configure(c) => ConfiguredCollapsesExactly(s.r, s.b, c);
      case ReleaseKeys => StopCollapsesExactly(s.r, s.b);
      case Tick(_) =>
      case GoLive => BackendKeepsApart(s.b);
    }
  }

  lemma PolledHitCollapses(polled: Reaction, r: Reaction, b: Board, at: int, d: HitDraws)
    requires Safe(r, b) && Sized(b) && !Collapsed(b)
    requires polled == r.(lastAutoFire := polled.lastAutoFire, debugKeyWasDown := polled.debugKeyWasDown)
    ensures Collapsed(OnHurt(polled, b, at, d).1) <==> Rolls(r, at) && d.pass && PressWaits(r, b)
  {
    hide Kept, Collapsed, OnHurt;
    HitCollapsesExactly(polled, b, at, d);
  }

  lemma BackendKeepsApart(b: Board)
    ensures Collapsed(b.(backend := GameActivity(true))) <==> Collapsed(b)
  {
    hide Collapses;
  }

  predicate SomeReleaseTooSoon(s: State, ops: seq<Op>)
    requires Sized(s.b)
  {
    ops != [] && (SomeReleaseTooSoon(s, ops[..|ops| - 1]) || ReleasesTooSoon(Run(s, ops[..|ops| - 1]), ops[|ops| - 1]))
  }

  // Over every run, on any backend, ready or not, pumped by anyone: a press and its release come together exactly when
  // some step releases the key while its press still waits.
  lemma {:induction false} RunCollapsesExactly(s: State, ops: seq<Op>)
    requires Safe(s.r, s.b) && Sized(s.b) && !Collapsed(s.b)
    ensures Collapsed(Run(s, ops).b) <==> SomeReleaseTooSoon(s, ops)
  {
    hide Safe, Collapsed, Apply, ReleasesTooSoon, Later;
    if ops != [] {
      var before, op := ops[..|ops| - 1], ops[|ops| - 1];
      var t := Run(s, before);
      RunCollapsesExactly(s, before);
      NoStuckKey(s, before);
      if Collapsed(t.b) {
        ApplyLater(t, op);
        CollapsedStays(t.b, Apply(t, op).b);
      } else {
        StepCollapsesExactly(t, op);
      }
    }
  }

  // ---- A run of calls that shows it: the timer pumps, and a hit cancels between two of its ticks

  predicate LegalCalls(s: State, calls: seq<Call>)
    requires Sized(s.b)
  {
    calls == []
    || (LegalCalls(s, calls[..|calls| - 1]) && LegalRun(RunCalls(s, calls[..|calls| - 1]), Expand(calls[|calls| - 1])))
  }

  lemma CallsAppend(s: State, calls: seq<Call>, c: Call)
    requires Sized(s.b)
    ensures RunCalls(s, calls + [c]) == Run(RunCalls(s, calls), Expand(c))
    ensures LegalCalls(s, calls + [c]) <==> LegalCalls(s, calls) && LegalRun(RunCalls(s, calls), Expand(c))
  {
    hide Run, LegalRun, Expand;
    assert (calls + [c])[..|calls|] == calls;
  }

  lemma LegalAppend(s: State, ops: seq<Op>, op: Op)
    requires Sized(s.b)
    ensures LegalRun(s, ops + [op]) <==> LegalRun(s, ops) && Legal(Run(s, ops), op)
  {
    hide Run, Legal;
    assert (ops + [op])[..|ops|] == ops;
  }

  // Every pick at its least.
  function Soonest(c: Config): HitDraws {
    HitDraws(true, c.repeats.min, c.delay.min, c.cooldown.min)
  }

  function ShortAct(c: Config): ActDraws {
    ActDraws(c.hold.min, c.release.min, c.cooldown.min)
  }

  function Due(c: Config, now: int): int {
    if c.delay.min > 0 then now + c.delay.min else now
  }

  function TimerPump(c: Config, at: int): Call {
    Pump(at, false, None, Hit2(at, Soonest(c)), false, Hit2(at, Soonest(c)), ShortAct(c))
  }

  predicate NoDebug(c: Config) {
    c.debugAutoFireMs <= 0 && c.debugKey <= 0
  }

  // A timer pump with the debug settings off: the time, what is pending, the module's visit.
  function Pumped(s: State, at: int): (t: State)
    requires Sized(s.b)
    ensures Sized(t.b)
  {
    Apply(Apply(Apply(s, Tick(at)), HandOver), Act(ShortAct(s.r.config)))
  }

  lemma PollsDoNothing(s: State, at: int, d: HitDraws)
    requires Sized(s.b) && NoDebug(s.r.config)
    ensures Apply(s, AutoFire(at, d)) == s && Apply(s, DebugKey(false, at, d)) == s
  {
    hide OnHurt;
  }

  lemma FlushIsQuiet(s: State, at: int)
    requires Sized(s.b)
    ensures var t := Apply(Apply(s, Tick(at)), HandOver);
      t.r == s.r && t.clock == at && t.tick == at && !t.acted && t.b == Flush(s.b)
  {
    hide Flush;
  }

  lemma TimerPumpRuns(s: State, at: int)
    requires Sized(s.b) && NoDebug(s.r.config) && s.clock <= at
    ensures var c := TimerPump(s.r.config, at); LegalRun(s, Expand(c)) && Run(s, Expand(c)) == Pumped(s, at)
  {
    hide Apply, Run, LegalRun;
    var c := TimerPump(s.r.config, at);
    var o1, o2, o3, o4, o5 := Tick(at), HandOver, AutoFire(at, Soonest(s.r.config)),
        DebugKey(false, at, Soonest(s.r.config)), Act(ShortAct(s.r.config));
    var a1 := [o1];
    var a2 := a1 + [o2];
    var a3 := a2 + [o3];
    var a4 := a3 + [o4];
    assert Expand(c) == a4 + [o5] && a1 == [] + [o1];
    RunOne(s, o1);
    RunAppend(s, a1, o2);
    RunAppend(s, a2, o3);
    RunAppend(s, a3, o4);
    RunAppend(s, a4, o5);
    FlushIsQuiet(s, at);
    PollsDoNothing(Run(s, a2), at, Soonest(s.r.config));
    NothingYet(s);
    LegalAppend(s, [], o1);
    LegalAppend(s, a1, o2);
    LegalAppend(s, a2, o3);
    LegalAppend(s, a3, o4);
    LegalAppend(s, a4, o5);
  }

  lemma NothingYet(s: State)
    requires Sized(s.b)
    ensures LegalRun(s, []) && Run(s, []) == s
  {
  }

  lemma HurtRuns(s: State, now: int)
    requires Sized(s.b) && s.clock <= now
    ensures var c := Hurt(now, Soonest(s.r.config));
      LegalRun(s, Expand(c)) && Run(s, Expand(c)) == Apply(s, Hit(now, Soonest(s.r.config)))
  {
    hide Apply, Run, LegalRun;
    var op := Hit(now, Soonest(s.r.config));
    assert [op] == [] + [op];
    NothingYet(s);
    LegalAppend(s, [], op);
    RunOne(s, op);
  }

  function CancelledCalls(c: Config, now: int): seq<Call> {
    [Hurt(now, Soonest(c))] + [TimerPump(c, Due(c, now))] + [Hurt(Due(c, now), Soonest(c))] + [TimerPump(c, Due(c, now))]
  }

  // With cancelling on, from any idle state that is ready and past its cooldown: a hit, the timer's tick that presses, a hit
  // before the next one, and that tick hands over the press together with its release. Every draw is legal.
  lemma TimerCancelCollapses(s: State, now: int)
    requires Safe(s.r, s.b) && Sized(s.b) && Ready(s.b) && s.b.pending == [] && !s.r.active && InRange(s.r.config.key)
    requires s.r.config.enabled && s.r.config.cancelOnNewHit && NoDebug(s.r.config)
    requires s.clock <= now && s.r.cooldownUntil <= now
    ensures var calls := CancelledCalls(s.r.config, now); var t := RunCalls(s, calls);
      LegalCalls(s, calls) && |t.b.batches| > |s.b.batches| && Collapses(t.b.batches[|s.b.batches|])
  {
    hide RunCalls, LegalCalls, Run, LegalRun, Apply, Expand, Pumped, Safe;
    var c := s.r.config;
    var due := Due(c, now);
    var h1, p1, h2 := [Hurt(now, Soonest(c))], [TimerPump(c, due)], [Hurt(due, Soonest(c))];
    IdleHoldsNothing(s);
    FirstHit(s, now);
    var s1 := Apply(s, Hit(now, Soonest(c)));
    PressingPump(s1, due);
    var s2 := Pumped(s1, due);
    CancellingHit(s2, due);
    var s3 := Apply(s2, Hit(due, Soonest(c)));
    TogetherPump(s3, due);
    HurtRuns(s, now);
    TimerPumpRuns(s1, due);
    HurtRuns(s2, due);
    TimerPumpRuns(s3, due);
    NoCallsYet(s);
    CallsAppend(s, [], Hurt(now, Soonest(c)));
    assert [] + h1 == h1;
    CallsAppend(s, h1, TimerPump(c, due));
    CallsAppend(s, h1 + p1, Hurt(due, Soonest(c)));
    CallsAppend(s, h1 + p1 + h2, TimerPump(c, due));
  }

  lemma IdleHoldsNothing(s: State)
    requires Safe(s.r, s.b) && Sized(s.b) && !s.r.active
    ensures forall k :: 0 <= k < KEYS ==> !s.b.held[k]
  {
    hide Kept;
  }

  lemma NoCallsYet(s: State)
    requires Sized(s.b)
    ensures RunCalls(s, []) == s && LegalCalls(s, [])
  {
  }

  lemma FirstHit(s: State, now: int)
    requires Sized(s.b) && !s.r.active && s.r.config.enabled && s.r.cooldownUntil <= now
    ensures var t := Apply(s, Hit(now, Soonest(s.r.config)));
      && t.b == s.b && t.r.config == s.r.config && t.r.active && !t.r.holding && t.r.heldKey == s.r.config.key
      && t.r.nextActionAt <= Due(s.r.config, now) && t.clock == now && t.r.cooldownUntil == s.r.cooldownUntil
  {
  }

  // The key is up and its press is all that is pending.
  lemma PressingPump(s: State, due: int)
    requires Sized(s.b) && s.b.pending == [] && s.r.active && !s.r.holding && InRange(s.r.heldKey)
    requires s.r.nextActionAt <= due && !s.b.held[s.r.heldKey]
    ensures var t := Pumped(s, due); var key := s.r.heldKey;
      && t.b.pending == [Transition(key, true)] && t.b.held[key] && t.r.holding && t.r.active && t.r.heldKey == key
      && t.r.config == s.r.config && t.clock == due && t.r.cooldownUntil == s.r.cooldownUntil
      && t.b.batches == s.b.batches && Ready(t.b) == Ready(s.b)
  {
  }

  lemma CancellingHit(s: State, due: int)
    requires Sized(s.b) && s.r.active && s.r.holding && InRange(s.r.heldKey) && s.b.held[s.r.heldKey]
    requires s.r.config.enabled && s.r.config.cancelOnNewHit && s.r.cooldownUntil <= due
    ensures var t := Apply(s, Hit(due, Soonest(s.r.config)));
      && t.b.pending == s.b.pending + [Transition(s.r.heldKey, false)] && t.b.batches == s.b.batches
      && Ready(t.b) == Ready(s.b) && t.clock == due && t.r.config == s.r.config
  {
  }

  lemma TogetherPump(s: State, at: int)
    requires Sized(s.b) && Ready(s.b) && |s.b.pending| == 2
    requires s.b.pending[0].down && !s.b.pending[1].down && s.b.pending[0].key == s.b.pending[1].key
    ensures var t := Pumped(s, at);
      |t.b.batches| > |s.b.batches| && t.b.batches[|s.b.batches|] == s.b.pending && Collapses(s.b.pending)
  {
    hide Deliver, Queue;
    var flushed := Flush(s.b);
    QueueBatches(flushed, s.r.heldKey, true);
    QueueBatches(flushed, s.r.heldKey, false);
  }
}
