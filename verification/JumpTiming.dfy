// How long a reaction takes, what it sends, and how often the module may roll, over whole runs.

module JumpTiming {
  import opened Keyboard
  import opened JumpReset

  function High(range: Range): int {
    if range.max <= range.min then range.min else range.max
  }

  lemma PickBounds(range: Range, v: int)
    requires Picks(range, v)
    ensures range.min <= v <= High(range)
  {
  }

  // ---- Timing of one reaction

  // The settings stay, no hit cancels, ticks reach the module and come at most `gap` apart.
  predicate Paced(s: State, op: Op, gap: int) {
    match op
    case Tick(now) => s.acted && now <= s.tick + gap
    case Configure(_) => false
    case ReleaseKeys => false
    case _ => !Cancels(s, op)
  }

  predicate PacedRun(s: State, ops: seq<Op>, gap: int)
    requires Sized(s.b)
  {
    ops == [] || (PacedRun(s, ops[..|ops| - 1], gap) && Paced(Run(s, ops[..|ops| - 1]), ops[|ops| - 1], gap))
  }

  predicate Steady(c: Config) {
    c.hold.min >= 0 && c.release.min >= 0
  }

  // When a sequence with `presses` presses left ends at the latest: every press and every gap at its longest, and each
  // of the remaining transitions a whole tick gap late.
  function Latest(r: Reaction, gap: int): int {
    if r.holding then r.nextActionAt + gap + Rest(r.pressesLeft - 1, High(r.config.hold) + High(r.config.release) + 2 * gap)
    else r.nextActionAt + High(r.config.hold) + 2 * gap
         + Rest(r.pressesLeft - 1, High(r.config.hold) + High(r.config.release) + 2 * gap)
  }

  function Earliest(r: Reaction): int {
    if r.holding then r.nextActionAt + Rest(r.pressesLeft - 1, r.config.hold.min + r.config.release.min)
    else r.nextActionAt + r.config.hold.min + Rest(r.pressesLeft - 1, r.config.hold.min + r.config.release.min)
  }

  // `count` further presses, `each` apart.
  function Rest(count: int, each: int): int {
    count * each
  }

  lemma RestStep(count: int, each: int)
    ensures Rest(count, each) == each + Rest(count - 1, each)
  {
  }

  lemma RestIsNatural(count: int, each: int)
    requires count >= 0 && each >= 0
    ensures Rest(count, each) >= 0
  {
  }

  // `n` presses and releases of a key; a key out of range is refused and adds nothing.
  function Pairs(key: int, n: nat): seq<Transition> {
    if n == 0 || !InRange(key) then [] else Pairs(key, n - 1) + [Transition(key, true), Transition(key, false)]
  }

  // What the sequence has sent so far.
  function SentSoFar(r: Reaction, presses: int): seq<Transition>
    requires r.pressesLeft <= presses
  {
    Pairs(r.heldKey, presses - r.pressesLeft) + if r.holding && InRange(r.heldKey) then [Transition(r.heldKey, true)] else []
  }

  predicate SameConfig(s: State, t: State) {
    t.r.config == s.r.config
  }

  // The sequence begun in `s` is still running in `t`, within its bounds.
  ghost predicate Underway(s: State, t: State, gap: int) {
    && Safe(t.r, t.b) && SameConfig(s, t) && t.r.active && t.r.heldKey == s.r.heldKey
    && 1 <= t.r.pressesLeft <= s.r.pressesLeft
    && Earliest(s.r) <= Earliest(t.r) && Latest(t.r, gap) <= Latest(s.r, gap)
    && t.tick <= t.r.nextActionAt + (if t.acted then 0 else gap)
    && Log(t.b) == Log(s.b) + SentSoFar(t.r, s.r.pressesLeft)
    && (InRange(t.r.heldKey) ==> t.b.held[t.r.heldKey] == t.r.holding)
  }

  // The step from `t` ends the sequence begun in `s`: in time, after exactly its presses and releases.
  ghost predicate Ends(s: State, t: State, op: Op, gap: int)
    requires Sized(t.b)
  {
    var u := Apply(t, op);
    && op.Act? && !u.r.active && SameConfig(s, u) && s.r.pressesLeft >= 0
    && Earliest(s.r) <= t.tick <= Latest(s.r, gap)
    && Log(u.b) == Log(s.b) + Pairs(s.r.heldKey, s.r.pressesLeft)
    && t.tick + s.r.config.cooldown.min <= u.r.cooldownUntil <= t.tick + High(s.r.config.cooldown)
  }

  // A sequence that has just begun.
  ghost predicate Begun(s: State, gap: int) {
    && Safe(s.r, s.b) && s.r.active && !s.r.holding && s.tick <= s.r.nextActionAt + (if s.acted then 0 else gap)
  }

  // A hit that does not pass changes nothing but, when it rolled, the cooldown.
  lemma IgnoredHit(r: Reaction, b: Board, now: int, d: HitDraws)
    requires Sized(b) && !(Rolls(r, now) && d.pass)
    ensures var s := OnHurt(r, b, now, d); s.1 == b && s.0 == r.(cooldownUntil := s.0.cooldownUntil)
  {
  }

  lemma BoardStepLogs(b: Board)
    requires Sized(b)
    ensures Log(Flush(b)) == Log(b) && Flush(b).held == b.held
    ensures Log(b.(backend := GameActivity(true))) == Log(b)
  {
    hide Flatten, Flush;
    FlushMoves(b);
  }

  // What Underway says of the part of the state that hits, polls and flushes leave alone.
  lemma NothingButActCounts(s: State, t: State, op: Op, gap: int)
    requires Underway(s, t, gap) && !Cancels(t, op) && !op.Act? && !op.Tick? && !op.Configure? && !op.ReleaseKeys?
    ensures Sized(t.b) && Underway(s, Apply(t, op), gap)
  {
    hide Kept, Flush, Log, OnHurt, Pairs, Rest, High;
    KeptSized(t.b);
    ApplySafe(t, op);
    BoardStepLogs(t.b);
    match op {
      case Hit(now, d) => IgnoredHit(t.r, t.b, now, d);
      case AutoFire(at, d) =>
        if AutoFires(t.r, t.tick) {
          IgnoredHit(t.r.(lastAutoFire := t.tick), t.b, at, d);
        }
      case DebugKey(down, at, d) =>
        if DebugFires(t.r, down) {
          IgnoredHit(t.r.(debugKeyWasDown := down), t.b, at, d);
        }
      case HandOver =>
      case GoLive =>
    }
  }

  lemma PressLogs(s: State, t: State)
    requires Sized(t.b) && !t.r.holding && (InRange(t.r.heldKey) ==> !t.b.held[t.r.heldKey])
    requires 1 <= t.r.pressesLeft <= s.r.pressesLeft
    requires Log(t.b) == Log(s.b) + SentSoFar(t.r, s.r.pressesLeft)
    ensures Log(Queue(t.b, t.r.heldKey, true)) == Log(s.b) + SentSoFar(t.r.(holding := true), s.r.pressesLeft)
  {
    hide Log, Queue, Flatten, Pairs;
    QueueLogs(t.b, t.r.heldKey, true);
    var p := Pairs(t.r.heldKey, s.r.pressesLeft - t.r.pressesLeft);
    assert p + [] == p;
    assert (Log(s.b) + p) + [Transition(t.r.heldKey, true)] == Log(s.b) + (p + [Transition(t.r.heldKey, true)]);
  }

  // A press: the sequence goes on holding.
  lemma PressGoesOn(s: State, t: State, d: ActDraws, gap: int)
    requires Underway(s, t, gap) && Steady(s.r.config) && ActLegal(s.r.config, d) && !t.acted && gap >= 0
    requires t.r.nextActionAt <= t.tick && !t.r.holding
    ensures Sized(t.b) && Underway(s, Apply(t, Act(d)), gap)
  {
    hide Kept, Log, Queue, Pairs, Rest, Flatten, Tidy, OnlyHeldByHold;
    KeptSized(t.b);
    ApplySafe(t, Act(d));
    QueueLogs(t.b, t.r.heldKey, true);
    PressLogs(s, t);
    PickBounds(s.r.config.hold, d.hold);
  }

  lemma ReleaseLogs(s: State, t: State)
    requires Sized(t.b) && t.r.holding && (InRange(t.r.heldKey) ==> t.b.held[t.r.heldKey])
    requires 1 <= t.r.pressesLeft <= s.r.pressesLeft
    requires Log(t.b) == Log(s.b) + SentSoFar(t.r, s.r.pressesLeft)
    ensures Log(Queue(t.b, t.r.heldKey, false)) == Log(s.b) + Pairs(t.r.heldKey, s.r.pressesLeft - t.r.pressesLeft + 1)
  {
    hide Kept, Log, Queue, Flatten;
    QueueLogs(t.b, t.r.heldKey, false);
    var p := Pairs(t.r.heldKey, s.r.pressesLeft - t.r.pressesLeft);
    var down, up := Transition(t.r.heldKey, true), Transition(t.r.heldKey, false);
    assert (Log(s.b) + (p + [down])) + [up] == Log(s.b) + (p + [down, up]);
    assert p + [] == p;
  }

  // A release with presses left: the sequence goes on waiting.
  lemma ReleaseGoesOn(s: State, t: State, d: ActDraws, gap: int)
    requires Underway(s, t, gap) && Steady(s.r.config) && ActLegal(s.r.config, d) && !t.acted && gap >= 0
    requires t.r.nextActionAt <= t.tick && t.r.holding && t.r.pressesLeft > 1
    ensures Sized(t.b) && Underway(s, Apply(t, Act(d)), gap)
  {
    hide Kept, Log, Queue, Pairs, Rest, Flatten;
    KeptSized(t.b);
    ApplySafe(t, Act(d));
    var u := Apply(t, Act(d));
    ReleaseLogs(s, t);
    QueueLogs(t.b, t.r.heldKey, false);
    PickBounds(s.r.config.release, d.release);
    RestStep(t.r.pressesLeft - 1, High(s.r.config.hold) + High(s.r.config.release) + 2 * gap);
    RestStep(t.r.pressesLeft - 1, s.r.config.hold.min + s.r.config.release.min);
    assert SentSoFar(u.r, s.r.pressesLeft) == Pairs(t.r.heldKey, s.r.pressesLeft - t.r.pressesLeft + 1) by {
      var p := Pairs(t.r.heldKey, s.r.pressesLeft - t.r.pressesLeft + 1);
      assert s.r.pressesLeft - u.r.pressesLeft == s.r.pressesLeft - t.r.pressesLeft + 1;
      assert p + [] == p;
    }
  }

  // The last release ends it.
  lemma ReleaseEnds(s: State, t: State, d: ActDraws, gap: int)
    requires Underway(s, t, gap) && Steady(s.r.config) && ActLegal(s.r.config, d) && !t.acted && gap >= 0
    requires t.r.nextActionAt <= t.tick && t.r.holding && t.r.pressesLeft == 1
    ensures Sized(t.b) && Ends(s, t, Act(d), gap)
  {
    hide Kept, Log, Queue, Pairs, Flatten;
    KeptSized(t.b);
    ReleaseLogs(s, t);
    assert s.r.pressesLeft - t.r.pressesLeft + 1 == s.r.pressesLeft;
    PickBounds(s.r.config.cooldown, d.cooldown);
  }

  lemma UnderwaySized(s: State, t: State, gap: int)
    requires Underway(s, t, gap)
    ensures Sized(t.b)
  {
    hide Kept, Log, Flatten;
    KeptSized(t.b);
  }

  lemma TickGoesOn(s: State, t: State, now: int, gap: int)
    requires Underway(s, t, gap) && Paced(t, Tick(now), gap)
    ensures Sized(t.b) && Underway(s, Apply(t, Tick(now)), gap)
  {
    hide Kept, Log, Flatten, Pairs, Rest;
    KeptSized(t.b);
  }

  lemma WaitGoesOn(s: State, t: State, d: ActDraws, gap: int)
    requires Underway(s, t, gap) && t.tick < t.r.nextActionAt
    ensures Sized(t.b) && Underway(s, Apply(t, Act(d)), gap)
  {
    hide Kept, Log, Flatten, Pairs, Rest;
    KeptSized(t.b);
  }

  lemma StepOfSequence(s: State, t: State, op: Op, gap: int)
    requires Underway(s, t, gap) && Steady(s.r.config) && Legal(t, op) && Paced(t, op, gap) && gap >= 0
    ensures Sized(t.b) && (Underway(s, Apply(t, op), gap) || Ends(s, t, op, gap))
  {
    hide Underway, Ends, Apply;
    UnderwaySized(s, t, gap);
    UnderwayConfig(s, t, gap);
    match op {
      case Tick(now) => TickGoesOn(s, t, now, gap);
      case Act(d) =>
        if t.tick < t.r.nextActionAt {
          WaitGoesOn(s, t, d, gap);
        } else if !t.r.holding {
          PressGoesOn(s, t, d, gap);
        } else if t.r.pressesLeft > 1 {
          ReleaseGoesOn(s, t, d, gap);
        } else {
          ReleaseEnds(s, t, d, gap);
        }
      case _ => NothingButActCounts(s, t, op, gap);
    }
  }

  lemma UnderwayConfig(s: State, t: State, gap: int)
    requires Underway(s, t, gap)
    ensures t.r.config == s.r.config && t.r.pressesLeft >= 1
  {
  }

  lemma BegunIsUnderway(s: State, gap: int)
    requires Begun(s, gap) && Steady(s.r.config)
    ensures Underway(s, s, gap)
  {
    hide Kept, Log, Flatten, Rest;
    KeptSized(s.b);
    assert Log(s.b) + [] == Log(s.b);
  }

  // From the hit on, a run either has the sequence still within its bounds at every step, or has a step that ends it.
  lemma {:induction false} SequenceTiming(s: State, ops: seq<Op>, gap: int)
    requires Begun(s, gap) && Steady(s.r.config) && gap >= 0
    requires Sized(s.b) && LegalRun(s, ops) && PacedRun(s, ops, gap)
    ensures Underway(s, Run(s, ops), gap)
         || exists i :: 0 <= i < |ops| && Underway(s, Run(s, ops[..i]), gap) && Ends(s, Run(s, ops[..i]), ops[i], gap)
  {
    hide Underway, Ends, Apply, Begun, Steady, Legal, Paced;
    if ops == [] {
      BegunIsUnderway(s, gap);
    } else {
      var n := |ops| - 1;
      var before := ops[..n];
      SequenceTiming(s, before, gap);
      if Underway(s, Run(s, before), gap) {
        StepOfSequence(s, Run(s, before), ops[n], gap);
        assert Underway(s, Run(s, ops[..n]), gap);
      } else {
        var i :| 0 <= i < n && Underway(s, Run(s, before[..i]), gap) && Ends(s, Run(s, before[..i]), before[i], gap);
        assert before[..i] == ops[..i] && before[i] == ops[i];
      }
    }
  }

  // Once a tick later than the bound has reached the module, the sequence is no longer underway.
  lemma OverdueHasEnded(s: State, t: State, gap: int)
    requires Underway(s, t, gap) && Steady(s.r.config) && gap >= 0 && t.acted
    ensures t.tick <= Latest(s.r, gap)
  {
    hide Kept, Log, Flatten, Pairs;
    RestIsNatural(t.r.pressesLeft - 1, High(s.r.config.hold) + High(s.r.config.release) + 2 * gap);
  }

  // The bounds, counted from the hit, for `n` presses.
  lemma BoundsFromHit(r: Reaction, now: int, d: HitDraws, gap: int)
    requires HitLegal(r.config, d)
    ensures var s, n := Begin(r, now, d), if d.repeats < 1 then 1 else d.repeats;
      && s.pressesLeft == n
      && now + r.config.delay.min + n * r.config.hold.min + (n - 1) * r.config.release.min <= Earliest(s)
      && Latest(s, gap)
           <= now + High(r.config.delay) + n * High(r.config.hold) + (n - 1) * High(r.config.release) + 2 * n * gap
  {
    var n := if d.repeats < 1 then 1 else d.repeats;
    PickBounds(r.config.delay, d.delay);
    var hold, release := High(r.config.hold), High(r.config.release);
    Spread(n, hold, release, gap);
    Spread(n, r.config.hold.min, r.config.release.min, 0);
  }

  lemma Spread(n: int, hold: int, release: int, gap: int)
    ensures hold + 2 * gap + Rest(n - 1, hold + release + 2 * gap) == n * hold + (n - 1) * release + 2 * n * gap
  {
    assert (n - 1) * (hold + release + 2 * gap) == (n - 1) * hold + (n - 1) * release + (n - 1) * (2 * gap);
    assert n * hold == (n - 1) * hold + hold;
    assert 2 * n * gap == (n - 1) * (2 * gap) + 2 * gap;
  }

  // ---- From the hit

  // A tick is never later than the clock.
  predicate TickIsPast(s: State) {
    s.tick <= s.clock
  }

  lemma {:induction false} TicksArePast(s: State, ops: seq<Op>)
    requires TickIsPast(s) && Sized(s.b) && LegalRun(s, ops)
    ensures TickIsPast(Run(s, ops))
  {
    hide OnHurt, OnAct, OnConfigured, Flush, ReleaseAll, HitLegal, ActLegal;
    if ops != [] {
      TicksArePast(s, ops[..|ops| - 1]);
    }
  }

  lemma HitBegins(s: State, now: int, d: HitDraws, gap: int)
    requires Safe(s.r, s.b) && TickIsPast(s) && Legal(s, Hit(now, d)) && Rolls(s.r, now) && d.pass
    requires s.r.config.delay.min >= 0 && gap >= 0
    ensures Sized(s.b)
    ensures var t := Apply(s, Hit(now, d)); Begun(t, gap) && t.r == Begin(s.r, now, d)
  {
    hide Kept;
    KeptSized(s.b);
    ApplySafe(s, Hit(now, d));
    PickBounds(s.r.config.delay, d.delay);
  }

  predicate Presses(d: HitDraws, n: int) {
    n == if d.repeats < 1 then 1 else d.repeats
  }

  // The last step of a reaction of `n` presses of `key` that began with the history at `log`.
  ghost predicate EndsWithin(t: State, op: Op, log: seq<Transition>, key: int, n: nat, from: int, to: int)
    requires Sized(t.b)
  {
    op.Act? && t.r.active && !Apply(t, op).r.active && from <= t.tick <= to && Log(Apply(t, op).b) == log + Pairs(key, n)
  }

  // The whole reaction: after a passing hit at `now` the module performs exactly n presses and n releases and is done no
  // sooner than every delay at its shortest and no later than every delay at its longest plus 2n tick gaps. Until then it
  // is underway, and whatever the hit itself released, for a sequence it cancelled, is not counted.
  lemma ReactionTakes(s: State, now: int, d: HitDraws, n: nat, ops: seq<Op>, gap: int, from: int, to: int)
    requires Safe(s.r, s.b) && TickIsPast(s) && Legal(s, Hit(now, d)) && Rolls(s.r, now) && d.pass && Presses(d, n)
    requires Steady(s.r.config) && s.r.config.delay.min >= 0 && gap >= 0 && Sized(s.b)
    requires var t := Apply(s, Hit(now, d)); LegalRun(t, ops) && PacedRun(t, ops, gap)
    requires from == now + s.r.config.delay.min + n * s.r.config.hold.min + (n - 1) * s.r.config.release.min
    requires to == now + High(s.r.config.delay) + n * High(s.r.config.hold) + (n - 1) * High(s.r.config.release)
                   + 2 * n * gap
    ensures var t := Apply(s, Hit(now, d)); var u := Run(t, ops);
      || (Underway(t, u, gap) && (u.acted ==> u.tick <= to))
      || exists i :: 0 <= i < |ops| && EndsWithin(Run(t, ops[..i]), ops[i], Log(t.b), s.r.config.key, n, from, to)
  {
    hide Apply, Legal, Safe, Log, Rolls, HitLegal, Latest, Earliest, Steady;
    var t := Apply(s, Hit(now, d));
    HitBegins(s, now, d, gap);
    LegalHit(s, now, d);
    BoundsFromHit(s.r, now, d, gap);
    SequenceTiming(t, ops, gap);
    if Underway(t, Run(t, ops), gap) {
      if Run(t, ops).acted {
        OverdueHasEnded(t, Run(t, ops), gap);
      }
    } else {
      var i :| 0 <= i < |ops| && Underway(t, Run(t, ops[..i]), gap) && Ends(t, Run(t, ops[..i]), ops[i], gap);
      assert EndsWithin(Run(t, ops[..i]), ops[i], Log(t.b), s.r.config.key, n, from, to);
    }
  }

  lemma LegalHit(s: State, now: int, d: HitDraws)
    requires Legal(s, Hit(now, d))
    ensures HitLegal(s.r.config, d)
  {
  }

  // ---- How often the module rolls

  // The time of the chance roll a step makes, if it makes one.
  function RollOf(s: State, op: Op): seq<int> {
    match op
    case Hit(now, _) => if Rolls(s.r, now) then [now] else []
    case AutoFire(at, _) => if AutoFires(s.r, s.tick) && Rolls(s.r, at) then [at] else []
    case DebugKey(down, at, _) => if DebugFires(s.r, down) && Rolls(s.r, at) then [at] else []
    case _ => []
  }

  function RollTimes(s: State, ops: seq<Op>): seq<int>
    requires Sized(s.b)
  {
    if ops == [] then [] else RollTimes(s, ops[..|ops| - 1]) + RollOf(Run(s, ops[..|ops| - 1]), ops[|ops| - 1])
  }

  // Cancelling is off, and settings that are read again keep it off and keep the cooldown range.
  predicate SameRule(s: State, op: Op) {
    !s.r.config.cancelOnNewHit
    && (op.Configure? ==> !op.config.cancelOnNewHit && op.config.cooldown == s.r.config.cooldown)
  }

  predicate SameRuleRun(s: State, ops: seq<Op>)
    requires Sized(s.b)
  {
    ops == [] || (SameRuleRun(s, ops[..|ops| - 1]) && SameRule(Run(s, ops[..|ops| - 1]), ops[|ops| - 1]))
  }

  // The settings read abort the sequence that is running: they disable the module or change its key.
  predicate Aborts(s: State, op: Op) {
    op.Configure? && s.r.active && (!op.config.enabled || op.config.key != s.r.heldKey)
  }

  predicate AbortFree(s: State, ops: seq<Op>)
    requires Sized(s.b)
  {
    ops == [] || (AbortFree(s, ops[..|ops| - 1]) && !Aborts(Run(s, ops[..|ops| - 1]), ops[|ops| - 1]))
  }

  // After a roll at `time` the next cannot come sooner than `wait` later.
  predicate Rested(s: State, time: int, wait: int) {
    && time <= s.clock
    && (if s.r.active then s.r.cooldownUntil <= time && (s.r.holding && s.tick < time ==> s.acted)
        else time + wait <= s.r.cooldownUntil)
  }

  // After a roll at `time` whose sequence was aborted nothing holds the next one up.
  predicate Open(s: State, time: int) {
    !s.r.active && s.r.cooldownUntil <= time <= s.clock
  }

  lemma ReloadIs(r: Reaction, b: Board, c: Config)
    requires Sized(b) && (r.holding ==> r.active) && (r.active ==> r.config.enabled)
    ensures var s := OnConfigured(r, b, c).0;
      s == if r.active && (!c.enabled || c.key != r.heldKey)
           then r.(config := c, active := false, holding := false, pressesLeft := 0) else r.(config := c)
  {
    hide SetInjectMode, Queue;
  }

  lemma StaysRested(s: State, op: Op, time: int)
    requires Safe(s.r, s.b) && Sized(s.b) && TickIsPast(s) && Legal(s, op) && SameRule(s, op) && !Aborts(s, op)
    requires Rested(s, time, s.r.config.cooldown.min) && RollOf(s, op) == []
    ensures Rested(Apply(s, op), time, s.r.config.cooldown.min)
  {
    hide Kept, Queue, SetInjectMode, Flush, ReleaseAll, AbortSequence, OnConfigured;
    match op {
      case Configure(c) => ReloadIs(s.r, s.b, c);
      case Act(d) => PickBounds(s.r.config.cooldown, d.cooldown);
      case _ =>
    }
  }

  lemma AbortOpens(s: State, op: Op, time: int)
    requires Safe(s.r, s.b) && Sized(s.b) && Aborts(s, op) && Rested(s, time, s.r.config.cooldown.min)
    ensures Open(Apply(s, op), time)
  {
    hide Kept, SetInjectMode, OnConfigured;
    ReloadIs(s.r, s.b, op.config);
  }

  lemma StaysOpen(s: State, op: Op, time: int)
    requires Safe(s.r, s.b) && Sized(s.b) && Legal(s, op) && RollOf(s, op) == [] && Open(s, time)
    ensures Open(Apply(s, op), time)
  {
    hide Kept, Queue, SetInjectMode, Flush, ReleaseAll, AbortSequence, OnConfigured;
    if op.Configure? {
      ReloadIs(s.r, s.b, op.config);
    }
  }

  lemma RollRests(s: State, op: Op)
    requires Sized(s.b) && TickIsPast(s) && Legal(s, op) && SameRule(s, op) && RollOf(s, op) != [] && Safe(s.r, s.b)
    ensures var t := Apply(s, op); var time := RollOf(s, op)[0];
      && RollOf(s, op) == [time] && s.clock <= time && !s.r.active && s.r.cooldownUntil <= time
      && Rested(t, time, s.r.config.cooldown.min)
  {
    hide Kept, AbortSequence;
    match op {
      case Hit(now, d) => PickBounds(s.r.config.cooldown, d.cooldown);
      case AutoFire(at, d) => PickBounds(s.r.config.cooldown, d.cooldown);
      case DebugKey(_, at, d) => PickBounds(s.r.config.cooldown, d.cooldown);
    }
  }

  lemma RuleStays(s: State, op: Op)
    requires Safe(s.r, s.b) && Sized(s.b) && SameRule(s, op)
    ensures var c := Apply(s, op).r.config; c.cooldown == s.r.config.cooldown && !c.cancelOnNewHit
  {
    hide Kept, Queue, SetInjectMode, Flush, ReleaseAll, AbortSequence, OnConfigured;
    if op.Configure? {
      ReloadIs(s.r, s.b, op.config);
    }
  }

  // Some sequence was aborted since the last roll.
  predicate AbortedSince(s: State, ops: seq<Op>)
    requires Sized(s.b)
  {
    ops != [] && var before, op := ops[..|ops| - 1], ops[|ops| - 1];
      RollOf(Run(s, before), op) == [] && (AbortedSince(s, before) || Aborts(Run(s, before), op))
  }

  // What a run keeps since its last roll.
  ghost predicate SinceRoll(s: State, ops: seq<Op>, wait: int)
    requires Sized(s.b)
  {
    var times, t := RollTimes(s, ops), Run(s, ops);
    && Safe(t.r, t.b) && TickIsPast(t) && t.r.config.cooldown.min == wait
    && (times != [] ==> !t.r.config.cancelOnNewHit)
    && (times != [] && AbortedSince(s, ops) ==> Open(t, times[|times| - 1]))
    && (times != [] && !AbortedSince(s, ops) ==> Rested(t, times[|times| - 1], wait))
  }

  lemma {:induction false} RollLeaves(s: State, ops: seq<Op>)
    requires Safe(s.r, s.b) && TickIsPast(s) && Sized(s.b) && LegalRun(s, ops) && SameRuleRun(s, ops)
    ensures SinceRoll(s, ops, s.r.config.cooldown.min)
  {
    hide Safe, Legal, Apply, Rested, Open, SameRule, Aborts, RollOf;
    if ops != [] {
      var before, op := ops[..|ops| - 1], ops[|ops| - 1];
      RollLeaves(s, before);
      var t := Run(s, before);
      ApplySafe(t, op);
      TicksArePast(s, ops);
      RuleStays(t, op);
      var times := RollTimes(s, before);
      assert times + [] == times;
      if RollOf(t, op) != [] {
        RollRests(t, op);
      } else if times != [] {
        var time := times[|times| - 1];
        if AbortedSince(s, before) {
          StaysOpen(t, op, time);
        } else if Aborts(t, op) {
          AbortOpens(t, op, time);
        } else {
          StaysRested(t, op, time);
        }
      }
    }
  }

  // A legal hit at `now` would roll.
  predicate HitRolls(s: State, now: int) {
    s.clock <= now && Rolls(s.r, now)
  }

  // With the cooldown range fixed and cancelling off, a hit can roll within the shortest cooldown of the last roll exactly
  // when that roll's sequence was aborted since, the module is enabled, and there still is time.
  lemma EarlyRollExactly(s: State, ops: seq<Op>)
    requires Safe(s.r, s.b) && TickIsPast(s) && Sized(s.b) && LegalRun(s, ops) && SameRuleRun(s, ops)
    requires RollTimes(s, ops) != []
    ensures var t, times := Run(s, ops), RollTimes(s, ops);
      var until := times[|times| - 1] + s.r.config.cooldown.min;
      (exists now :: now < until && HitRolls(t, now))
      <==> AbortedSince(s, ops) && t.r.config.enabled && t.clock < until
  {
    hide Safe, Run, RollTimes, AbortedSince, LegalRun, SameRuleRun;
    RollLeaves(s, ops);
    var t, times := Run(s, ops), RollTimes(s, ops);
    if AbortedSince(s, ops) && t.r.config.enabled && t.clock < times[|times| - 1] + s.r.config.cooldown.min {
      assert HitRolls(t, t.clock);
    }
  }

  // ---- How soon it may roll again

  // The step rolls, and the roll does not pass.
  predicate Fails(s: State, op: Op) {
    RollOf(s, op) != [] && !Passes(s, op)
  }

  // A failed roll arms the cooldown, from its own time and within the range, and changes nothing else: a sequence that was
  // running goes on.
  lemma FailedRollArms(s: State, op: Op)
    requires Sized(s.b) && Legal(s, op) && Fails(s, op)
    ensures var t, time := Apply(s, op), RollOf(s, op)[0];
      && RollOf(s, op) == [time] && t.b == s.b && t.clock == time
      && t.r.active == s.r.active && t.r.holding == s.r.holding && t.r.pressesLeft == s.r.pressesLeft
      && t.r.nextActionAt == s.r.nextActionAt && t.r.heldKey == s.r.heldKey && t.r.config == s.r.config
      && time + s.r.config.cooldown.min <= t.r.cooldownUntil <= time + High(s.r.config.cooldown)
  {
    match op {
      case Hit(now, d) => PickBounds(s.r.config.cooldown, d.cooldown);
      case AutoFire(at, d) => PickBounds(s.r.config.cooldown, d.cooldown);
      case DebugKey(_, at, d) => PickBounds(s.r.config.cooldown, d.cooldown);
    }
  }

  lemma IdleStays(s: State, op: Op)
    requires Sized(s.b) && !s.r.active && !s.r.holding && RollOf(s, op) == []
    ensures var r := Apply(s, op).r; !r.active && !r.holding && r.cooldownUntil == s.r.cooldownUntil
  {
    hide Queue, SetInjectMode, Flush, ReleaseAll;
  }

  lemma {:induction false} IdleUntilRoll(s: State, ops: seq<Op>)
    requires Sized(s.b) && !s.r.active && !s.r.holding && RollTimes(s, ops) == []
    ensures var r := Run(s, ops).r; !r.active && !r.holding && r.cooldownUntil == s.r.cooldownUntil
  {
    hide Apply, RollOf;
    if ops != [] {
      IdleUntilRoll(s, ops[..|ops| - 1]);
      IdleStays(Run(s, ops[..|ops| - 1]), ops[|ops| - 1]);
    }
  }

  // From an idle state on, whatever the steps and the settings read, hits roll exactly from the end of its cooldown on.
  lemma IdleRollsExactly(s: State, ops: seq<Op>, now: int)
    requires Sized(s.b) && !s.r.active && !s.r.holding && RollTimes(s, ops) == []
    ensures var t := Run(s, ops); HitRolls(t, now) <==> t.r.config.enabled && t.clock <= now && s.r.cooldownUntil <= now
  {
    hide Run, RollTimes;
    IdleUntilRoll(s, ops);
  }

  // After a failed roll of an idle module no hit rolls before the shortest cooldown has passed, and while it is enabled
  // every hit does once the longest has, until one has rolled.
  lemma FailedRollExactly(s: State, op: Op, ops: seq<Op>, now: int)
    requires Safe(s.r, s.b) && Sized(s.b) && Legal(s, op) && Fails(s, op) && !s.r.active
    requires RollTimes(Apply(s, op), ops) == []
    ensures var t, time := Run(Apply(s, op), ops), RollOf(s, op)[0];
      && (HitRolls(t, now) ==> time + s.r.config.cooldown.min <= now)
      && (t.r.config.enabled && t.clock <= now && time + High(s.r.config.cooldown) <= now ==> HitRolls(t, now))
  {
    hide Kept, Apply, Run, RollTimes, RollOf, Passes, HitRolls;
    FailedRollArms(s, op);
    IdleRollsExactly(Apply(s, op), ops, now);
  }

  // The same after the last release of a sequence.
  lemma EndedSequenceExactly(s: State, t: State, op: Op, gap: int, ops: seq<Op>, now: int)
    requires Sized(t.b) && Ends(s, t, op, gap) && Safe(t.r, t.b) && RollTimes(Apply(t, op), ops) == []
    ensures var u := Run(Apply(t, op), ops);
      && (HitRolls(u, now) ==> t.tick + s.r.config.cooldown.min <= now)
      && (u.r.config.enabled && u.clock <= now && t.tick + High(s.r.config.cooldown) <= now ==> HitRolls(u, now))
  {
    EndIsTidy(t, op);
    hide Safe, Apply, Run, RollTimes, HitRolls, Pairs, Log;
    IdleRollsExactly(Apply(t, op), ops, now);
  }

  lemma EndIsTidy(t: State, op: Op)
    requires Sized(t.b) && Safe(t.r, t.b)
    ensures var r := Apply(t, op).r; r.holding ==> r.active
  {
    ApplySafe(t, op);
    hide Apply, Kept;
  }

  // ---- The synthetic hits of the debug settings

  // The tick of a timed hit, if the step makes one.
  function FireOf(s: State, op: Op): seq<int> {
    if op.AutoFire? && AutoFires(s.r, s.tick) then [s.tick] else []
  }

  function FireTimes(s: State, ops: seq<Op>): seq<int>
    requires Sized(s.b)
  {
    if ops == [] then [] else FireTimes(s, ops[..|ops| - 1]) + FireOf(Run(s, ops[..|ops| - 1]), ops[|ops| - 1])
  }

  // Whether the trigger key was down when it was last polled.
  predicate WasDown(s: State, ops: seq<Op>)
    requires Sized(s.b)
  {
    if ops == [] then s.r.debugKeyWasDown
    else
      var before, op := ops[..|ops| - 1], ops[|ops| - 1];
      var c := Run(s, before).r.config;
      if op.DebugKey? && c.enabled && c.debugKey > 0 then op.down else WasDown(s, before)
  }

  lemma PollStep(s: State, op: Op)
    requires Sized(s.b)
    ensures var r := Apply(s, op).r;
      && r.lastAutoFire == (if FireOf(s, op) == [] then s.r.lastAutoFire else s.tick)
      && r.debugKeyWasDown
           == if op.DebugKey? && s.r.config.enabled && s.r.config.debugKey > 0 then op.down else s.r.debugKeyWasDown
  {
    hide Queue, SetInjectMode, Flush, ReleaseAll;
  }

  lemma {:induction false} PollsRemember(s: State, ops: seq<Op>)
    requires Sized(s.b)
    ensures var r, times := Run(s, ops).r, FireTimes(s, ops);
      && r.lastAutoFire == (if times == [] then s.r.lastAutoFire else times[|times| - 1])
      && r.debugKeyWasDown == WasDown(s, ops)
  {
    hide Apply, FireOf;
    if ops != [] {
      PollsRemember(s, ops[..|ops| - 1]);
      PollStep(Run(s, ops[..|ops| - 1]), ops[|ops| - 1]);
      FireOfOne(Run(s, ops[..|ops| - 1]), ops[|ops| - 1]);
    }
  }

  lemma FireOfOne(s: State, op: Op)
    ensures FireOf(s, op) == [] || FireOf(s, op) == [s.tick]
  {
  }

  // Over every run: a visit of the module makes a timed hit exactly when the setting is on and at least its time has passed
  // since the last one.
  lemma AutoFiresExactly(s: State, ops: seq<Op>, at: int, d: HitDraws)
    requires Sized(s.b) && FireTimes(s, ops) != []
    ensures var t, times := Run(s, ops), FireTimes(s, ops);
      FireOf(t, AutoFire(at, d)) == [t.tick]
      <==> t.r.config.enabled && t.r.config.debugAutoFireMs > 0
           && times[|times| - 1] + t.r.config.debugAutoFireMs <= t.tick
  {
    hide Run, FireTimes;
    PollsRemember(s, ops);
  }

  // And the trigger key makes one exactly when it is down and was up when it was last polled.
  lemma TriggerFiresExactly(s: State, ops: seq<Op>, down: bool)
    requires Sized(s.b)
    ensures var t := Run(s, ops);
      DebugFires(t.r, down) <==> t.r.config.enabled && t.r.config.debugKey > 0 && down && !WasDown(s, ops)
  {
    hide Run, WasDown;
    PollsRemember(s, ops);
  }

  predicate Spaced(times: seq<int>, wait: int) {
    forall i :: 0 < i < |times| ==> times[i - 1] + wait <= times[i]
  }

  // Reading settings lets a hit roll while a sequence runs exactly when they abort it and leave the module enabled.
  lemma ReloadReopensExactly(s: State, c: Config, now: int)
    requires Safe(s.r, s.b) && s.r.active && !c.cancelOnNewHit && s.r.cooldownUntil <= now
    ensures Sized(s.b)
    ensures Rolls(Apply(s, Configure(c)).r, now) <==> c.enabled && Aborts(s, Configure(c))
  {
    hide Kept, OnConfigured;
    KeptSized(s.b);
    ReloadIs(s.r, s.b, c);
  }

  // Switching the module off and on again does so too, with the same key and everything else unchanged.
  lemma OffAndOnReopens(s: State, now: int)
    requires Safe(s.r, s.b) && s.r.active && !s.r.config.cancelOnNewHit && s.r.cooldownUntil <= now
    ensures Sized(s.b) && !Rolls(s.r, now)
    ensures Rolls(Apply(Apply(s, Configure(s.r.config.(enabled := false))), Configure(s.r.config)).r, now)
  {
    hide Kept, OnConfigured;
    KeptSized(s.b);
    var off := Configure(s.r.config.(enabled := false));
    ReloadIs(s.r, s.b, off.config);
    ReloadIs(Apply(s, off).r, Apply(s, off).b, s.r.config);
  }

  // Rolls, passed or failed, are at least the shortest cooldown apart, however many hits there are, as long as no sequence
  // is aborted.
  lemma {:induction false} RollsAreSpaced(s: State, ops: seq<Op>)
    requires Safe(s.r, s.b) && TickIsPast(s) && Sized(s.b) && LegalRun(s, ops) && SameRuleRun(s, ops) && AbortFree(s, ops)
    ensures Spaced(RollTimes(s, ops), s.r.config.cooldown.min)
    ensures SinceRoll(s, ops, s.r.config.cooldown.min) && !AbortedSince(s, ops)
  {
    hide Safe, Legal, Apply, Rested, Open, SameRule, Aborts, RollOf;
    RollLeaves(s, ops);
    if ops != [] {
      var before, op := ops[..|ops| - 1], ops[|ops| - 1];
      RollsAreSpaced(s, before);
      RollLeaves(s, before);
      var t, times := Run(s, before), RollTimes(s, before);
      assert times + [] == times;
      if RollOf(t, op) != [] {
        RollRests(t, op);
        if times != [] {
          RestedThen(t, times[|times| - 1], s.r.config.cooldown.min, RollOf(t, op)[0]);
        }
      }
    }
  }

  lemma RestedThen(s: State, time: int, wait: int, now: int)
    requires Rested(s, time, wait) && !s.r.active && s.r.cooldownUntil <= now
    ensures time + wait <= now
  {
  }

  // How many of the times lie in a window.
  function CountIn(times: seq<int>, from: int, to: int): nat {
    if times == [] then 0
    else CountIn(times[..|times| - 1], from, to) + if from <= times[|times| - 1] <= to then 1 else 0
  }

  lemma {:induction false} SpacedBelow(times: seq<int>, wait: int, i: nat)
    requires Spaced(times, wait) && wait >= 0 && i < |times|
    ensures times[i] <= times[|times| - 1]
    decreases |times| - i
  {
    if i + 1 < |times| {
      SpacedBelow(times, wait, i + 1);
    }
  }

  lemma {:induction false} CountUpTo(times: seq<int>, from: int, to: int, cap: int)
    requires cap <= to && forall i :: 0 <= i < |times| ==> times[i] <= cap
    ensures CountIn(times, from, to) == CountIn(times, from, cap)
  {
    if times != [] {
      CountUpTo(times[..|times| - 1], from, to, cap);
    }
  }

  lemma {:induction false} SpacedCount(times: seq<int>, wait: int, from: int, to: int)
    requires Spaced(times, wait) && wait > 0
    ensures var n := CountIn(times, from, to); n > 0 ==> Rest(n - 1, wait) <= to - from
  {
    hide Rest;
    if times != [] {
      var init, last := times[..|times| - 1], times[|times| - 1];
      SpacedCount(init, wait, from, to);
      if from <= last <= to && CountIn(init, from, to) > 0 {
        forall i | 0 <= i < |init|
          ensures init[i] <= last - wait
        {
          SpacedBelow(init, wait, i);
        }
        CountUpTo(init, from, to, last - wait);
        SpacedCount(init, wait, from, last - wait);
        RestStep(CountIn(init, from, to), wait);
      } else {
        RestNone(wait);
      }
    }
  }

  lemma RestNone(each: int)
    ensures Rest(0, each) == 0
  {
  }

  lemma AtMost(n: int, wait: int, span: int)
    requires wait > 0 && Rest(n, wait) <= span
    ensures n <= span / wait
  {
    hide Rest;
    var q := span / wait;
    NextMultiple(span, wait);
    if n > q {
      RestGrows(q + 1, n, wait);
    }
  }

  lemma NextMultiple(span: int, wait: int)
    requires wait > 0
    ensures span < Rest(span / wait + 1, wait)
  {
    assert span == span / wait * wait + span % wait;
    assert (span / wait + 1) * wait == span / wait * wait + wait;
  }

  lemma RestGrows(a: int, b: int, each: int)
    requires a <= b && each >= 0
    ensures Rest(a, each) <= Rest(b, each)
  {
    assert (b - a) * each >= 0;
    assert b * each == a * each + (b - a) * each;
  }

  // So a window of length `span`, wherever it lies, holds at most 1 + span / cooldown.min rolls of a run.
  lemma WindowHoldsFew(s: State, ops: seq<Op>, from: int, span: nat)
    requires Safe(s.r, s.b) && TickIsPast(s) && Sized(s.b) && LegalRun(s, ops) && SameRuleRun(s, ops) && AbortFree(s, ops)
    requires s.r.config.cooldown.min > 0
    ensures CountIn(RollTimes(s, ops), from, from + span) <= 1 + span / s.r.config.cooldown.min
  {
    hide Safe, RollTimes, Rest, CountIn;
    var n, wait := CountIn(RollTimes(s, ops), from, from + span), s.r.config.cooldown.min;
    RollsAreSpaced(s, ops);
    SpacedCount(RollTimes(s, ops), wait, from, from + span);
    if n > 0 {
      AtMost(n - 1, wait, span);
    }
  }
}
