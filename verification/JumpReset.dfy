// src/modules/auto_jump_reset.cpp and the way src/tick.cpp and src/module.cpp drive it, on values: one step at a time,
// with every random pick and every clock reading given by the environment.

module JumpReset {
  import opened Wrappers
  import opened Keyboard

  datatype Range = Range(min: int, max: int)

  // What a pick from a range may be.
  predicate Picks(range: Range, v: int) {
    if range.max <= range.min then v == range.min else range.min <= v <= range.max
  }

  datatype Config = Config(enabled: bool, delay: Range, hold: Range, release: Range, repeats: Range, cooldown: Range,
                           key: int, cancelOnNewHit: bool, debugKey: int, debugAutoFireMs: int, mode: Mode)

  datatype Reaction = Reaction(config: Config, active: bool, holding: bool, heldKey: int, pressesLeft: int,
                               nextActionAt: int, cooldownUntil: int, debugKeyWasDown: bool, lastAutoFire: int)

  // `clock` is the latest time anything was told; the source's steady clock never goes back. `tick` is the time of the
  // latest tick, and `acted` says whether that tick has reached the module.
  datatype State = State(r: Reaction, b: Board, clock: int, tick: int, acted: bool)

  // ---- The module's steps

  function AbortSequence(r: Reaction, b: Board): (s: (Reaction, Board))
    requires Sized(b)
    ensures Sized(s.1) && s.0.config == r.config && s.0.cooldownUntil == r.cooldownUntil
  {
    if !r.active && !r.holding then (r, b)
    else
      QueueSized(b, r.heldKey, false);
      (r.(active := false, holding := false, pressesLeft := 0), if r.holding then Queue(b, r.heldKey, false) else b)
  }

  datatype HitDraws = HitDraws(pass: bool, repeats: int, delay: int, cooldown: int)

  datatype ActDraws = ActDraws(hold: int, release: int, cooldown: int)

  // Whether a hit gets as far as the chance roll.
  predicate Rolls(r: Reaction, now: int) {
    r.config.enabled && now >= r.cooldownUntil && !(r.active && !r.config.cancelOnNewHit)
  }

  function Begin(r: Reaction, now: int, d: HitDraws): Reaction {
    r.(active := true, pressesLeft := if d.repeats < 1 then 1 else d.repeats, heldKey := r.config.key, holding := false,
       nextActionAt := now + d.delay)
  }

  function OnHurt(r: Reaction, b: Board, now: int, d: HitDraws): (s: (Reaction, Board))
    requires Sized(b)
    ensures Sized(s.1)
  {
    if !Rolls(r, now) then (r, b)
    else if !d.pass then (r.(cooldownUntil := now + d.cooldown), b)
    else
      var idle := if r.active then AbortSequence(r, b) else (r, b);
      (Begin(idle.0, now, d), idle.1)
  }

  // The part of onTick() after the debug polling.
  function OnAct(r: Reaction, b: Board, now: int, d: ActDraws): (s: (Reaction, Board))
    requires Sized(b)
    ensures Sized(s.1)
  {
    QueueSized(b, r.heldKey, !r.holding);
    if !r.active || now < r.nextActionAt then (r, b)
    else if !r.holding then (r.(holding := true, nextActionAt := now + d.hold), Queue(b, r.heldKey, true))
    else
      var up := r.(holding := false, pressesLeft := r.pressesLeft - 1);
      if up.pressesLeft > 0 then (up.(nextActionAt := now + d.release), Queue(b, r.heldKey, false))
      else (up.(active := false, cooldownUntil := now + d.cooldown), Queue(b, r.heldKey, false))
  }

  // onConfigured(), with the new settings already in place.
  function AfterSettings(r: Reaction, b: Board, enabledChanged: bool): (s: (Reaction, Board))
    requires Sized(b)
    ensures Sized(s.1)
  {
    var switched := (r, SetInjectMode(b, r.config.mode));
    var stopped := if enabledChanged && !r.config.enabled then AbortSequence(switched.0, switched.1) else switched;
    if stopped.0.active && stopped.0.heldKey != r.config.key then AbortSequence(stopped.0, stopped.1) else stopped
  }

  // applyConfig() for this module.
  function OnConfigured(r: Reaction, b: Board, config: Config): (s: (Reaction, Board))
    requires Sized(b)
    ensures Sized(s.1)
  {
    AfterSettings(r.(config := config), b, r.config.enabled != config.enabled)
  }

  predicate AutoFires(r: Reaction, now: int) {
    r.config.enabled && r.config.debugAutoFireMs > 0 && now - r.lastAutoFire >= r.config.debugAutoFireMs
  }

  // The first half of pollDebugKey(): a synthetic hit, at a time `at` of its own.
  function OnAutoFire(r: Reaction, b: Board, now: int, at: int, d: HitDraws): (s: (Reaction, Board))
    requires Sized(b)
    ensures Sized(s.1)
  {
    if AutoFires(r, now) then OnHurt(r.(lastAutoFire := now), b, at, d) else (r, b)
  }

  predicate Polls(r: Reaction) {
    r.config.enabled && r.config.debugKey > 0
  }

  predicate DebugFires(r: Reaction, down: bool) {
    Polls(r) && down && !r.debugKeyWasDown
  }

  // The second half: a synthetic hit when the debug key has just gone down.
  function OnDebugKey(r: Reaction, b: Board, down: bool, at: int, d: HitDraws): (s: (Reaction, Board))
    requires Sized(b)
    ensures Sized(s.1)
  {
    if !Polls(r) then (r, b)
    else if DebugFires(r, down) then OnHurt(r.(debugKeyWasDown := down), b, at, d)
    else (r.(debugKeyWasDown := down), b)
  }

  // ---- Steps of the whole machine

  datatype Op =
    | Hit(now: int, hit: HitDraws)
    | Tick(now: int)                                 // pump() reads the clock
    | AutoFire(at: int, hit: HitDraws)               // debug_auto_fire_ms: a synthetic hit at time `at`
    | DebugKey(down: bool, at: int, hit: HitDraws)   // debug_trigger_key: the key's state, and a hit at its edge
    | Act(act: ActDraws)
    | HandOver                                        // flush()
    | Configure(config: Config)
    | ReleaseKeys                                    // releaseAll()
    | GoLive                                         // the GameActivity backend gets its callbacks

  function With(s: State, rb: (Reaction, Board)): State {
    s.(r := rb.0, b := rb.1)
  }

  function Apply(s: State, op: Op): (t: State)
    requires Sized(s.b)
    ensures Sized(t.b)
  {
    match op
    case Hit(now, d) => With(s, OnHurt(s.r, s.b, now, d)).(clock := now)
    case Tick(now) => s.(clock := now, tick := now, acted := false)
    case AutoFire(at, d) =>
      With(s, OnAutoFire(s.r, s.b, s.tick, at, d)).(clock := if AutoFires(s.r, s.tick) then at else s.clock)
    case DebugKey(down, at, d) =>
      With(s, OnDebugKey(s.r, s.b, down, at, d)).(clock := if DebugFires(s.r, down) then at else s.clock)
    case Act(d) => With(s, OnAct(s.r, s.b, s.tick, d)).(acted := true)
    case HandOver => s.(b := Flush(s.b))
    case Configure(config) => With(s, OnConfigured(s.r, s.b, config))
    case ReleaseKeys => s.(b := ReleaseAll(s.b))
    case GoLive => if s.b.backend.GameActivity? then s.(b := s.b.(backend := GameActivity(true))) else s
  }

  // ---- What the environment may do: picks stay in their ranges, the clock never goes back, one visit a tick

  predicate HitLegal(c: Config, d: HitDraws) {
    Picks(c.repeats, d.repeats) && Picks(c.delay, d.delay) && Picks(c.cooldown, d.cooldown)
  }

  predicate ActLegal(c: Config, d: ActDraws) {
    Picks(c.hold, d.hold) && Picks(c.release, d.release) && Picks(c.cooldown, d.cooldown)
  }

  predicate Legal(s: State, op: Op) {
    match op
    case Hit(now, d) => s.clock <= now && HitLegal(s.r.config, d)
    case Tick(now) => s.clock <= now
    case AutoFire(at, d) => s.clock <= at && HitLegal(s.r.config, d)
    case DebugKey(_, at, d) => s.clock <= at && HitLegal(s.r.config, d)
    case Act(d) => !s.acted && ActLegal(s.r.config, d)
    case _ => true
  }

  // The step holds a hit that rolls and passes.
  predicate Passes(s: State, op: Op) {
    match op
    case Hit(now, d) => Rolls(s.r, now) && d.pass
    case AutoFire(at, d) => AutoFires(s.r, s.tick) && Rolls(s.r, at) && d.pass
    case DebugKey(down, at, d) => DebugFires(s.r, down) && Rolls(s.r, at) && d.pass
    case _ => false
  }

  // Such a hit cancels the sequence that is running.
  predicate Cancels(s: State, op: Op) {
    s.r.active && Passes(s, op)
  }

  function Run(s: State, ops: seq<Op>): (t: State)
    requires Sized(s.b)
    ensures Sized(t.b)
  {
    if ops == [] then s else Apply(Run(s, ops[..|ops| - 1]), ops[|ops| - 1])
  }

  predicate LegalRun(s: State, ops: seq<Op>)
    requires Sized(s.b)
  {
    ops == [] || (LegalRun(s, ops[..|ops| - 1]) && Legal(Run(s, ops[..|ops| - 1]), ops[|ops| - 1]))
  }

  // ---- No stuck key: what every step keeps

  predicate Tidy(r: Reaction) {
    && (r.holding ==> r.active)
    && (r.active ==> r.config.enabled && r.heldKey == r.config.key && r.pressesLeft >= 1)
  }

  // A key is held only by a running sequence in its hold phase, and it is that sequence's key.
  predicate OnlyHeldByHold(r: Reaction, b: Board)
    requires |b.held| == KEYS
  {
    forall k :: 0 <= k < KEYS && b.held[k] ==> r.active && r.holding && k == r.heldKey
  }

  predicate Safe(r: Reaction, b: Board) {
    Kept(b) && Tidy(r) && OnlyHeldByHold(r, b)
  }

  lemma AbortSafe(r: Reaction, b: Board)
    requires Kept(b) && OnlyHeldByHold(r, b) && (r.holding ==> r.active)
    ensures Sized(b)
    ensures var s := AbortSequence(r, b); Safe(s.0, s.1) && !s.0.active && s.0.config == r.config
  {
    hide Kept, Queue, Log, Flatten;
    KeptSized(b);
    QueueKeeps(b, r.heldKey, false);
    QueueLogs(b, r.heldKey, false);
    KeptHoldsNoZero(b);
  }

  lemma HurtSafe(r: Reaction, b: Board, now: int, d: HitDraws)
    requires Safe(r, b)
    ensures Sized(b)
    ensures var s := OnHurt(r, b, now, d); Safe(s.0, s.1)
  {
    hide Kept, AbortSequence;
    KeptSized(b);
    AbortSafe(r, b);
  }

  lemma ActSafe(r: Reaction, b: Board, now: int, d: ActDraws)
    requires Safe(r, b)
    ensures Sized(b)
    ensures var s := OnAct(r, b, now, d); Safe(s.0, s.1)
  {
    hide Kept, Queue, Log, Flatten;
    KeptSized(b);
    QueueKeeps(b, r.heldKey, true);
    QueueKeeps(b, r.heldKey, false);
    QueueLogs(b, r.heldKey, true);
    QueueLogs(b, r.heldKey, false);
    KeptHoldsNoZero(b);
  }

  lemma ConfiguredSafe(r: Reaction, b: Board, config: Config)
    requires Safe(r, b)
    ensures Sized(b)
    ensures var s := OnConfigured(r, b, config); Safe(s.0, s.1) && s.0.config == config && s.1.mode == config.mode
  {
    hide Kept, AbortSequence, SetInjectMode;
    KeptSized(b);
    SetInjectModeKeeps(b, config.mode);
    var b1 := SetInjectMode(b, config.mode);
    var r1 := r.(config := config);
    AbortSafe(r1, b1);
    AbortMode(r1, b1);
  }

  lemma AbortMode(r: Reaction, b: Board)
    requires Sized(b)
    ensures AbortSequence(r, b).1.mode == b.mode
  {
  }

  lemma BoardStepSafe(r: Reaction, b: Board)
    requires Safe(r, b)
    ensures Sized(b) && Safe(r, Flush(b)) && Safe(r, ReleaseAll(b))
  {
    hide Kept, Flush, ReleaseAll, Log;
    KeptSized(b);
    FlushKeeps(b);
    FlushMoves(b);
    ReleaseAllReleases(b);
  }

  lemma BackendIsNotHistory(b: Board, backend: Backend)
    requires Kept(b)
    ensures Kept(b.(backend := backend))
  {
    hide Flatten, Down, Alternates;
  }

  lemma ApplySafe(s: State, op: Op)
    requires Safe(s.r, s.b)
    ensures Sized(s.b) && Safe(Apply(s, op).r, Apply(s, op).b)
  {
    hide Kept, OnHurt, OnAct, OnConfigured, Flush, ReleaseAll;
    KeptSized(s.b);
    match op {
      case Hit(now, d) => HurtSafe(s.r, s.b, now, d);
      case Tick(now) =>
      case AutoFire(at, d) => HurtSafe(s.r.(lastAutoFire := s.tick), s.b, at, d);
      case DebugKey(down, at, d) => HurtSafe(s.r.(debugKeyWasDown := down), s.b, at, d);
      case Act(d) => ActSafe(s.r, s.b, s.tick, d);
      case Configure(config) => ConfiguredSafe(s.r, s.b, config);
      case HandOver => BoardStepSafe(s.r, s.b);
      case ReleaseKeys => BoardStepSafe(s.r, s.b);
      case GoLive => BackendIsNotHistory(s.b, GameActivity(true));
    }
  }

  // In every run a key is down only while a sequence holds it: none once the module is idle or switched off.
  lemma {:induction false} NoStuckKey(s: State, ops: seq<Op>)
    requires Safe(s.r, s.b)
    ensures Sized(s.b)
    ensures var t := Run(s, ops);
      Safe(t.r, t.b) && (!t.r.config.enabled || !t.r.active ==> forall k :: 0 <= k < KEYS ==> !t.b.held[k])
  {
    hide Kept, Apply;
    KeptSized(s.b);
    if ops != [] {
      NoStuckKey(s, ops[..|ops| - 1]);
      ApplySafe(Run(s, ops[..|ops| - 1]), ops[|ops| - 1]);
    }
  }

  lemma AbortGrows(r: Reaction, b: Board)
    requires Sized(b)
    ensures Log(b) <= Log(AbortSequence(r, b).1)
  {
    hide Log, Queue;
    QueueGrows(b, r.heldKey, false);
  }

  lemma ApplyGrows(s: State, op: Op)
    requires Sized(s.b)
    ensures Log(s.b) <= Log(Apply(s, op).b)
  {
    hide Flatten, Queue, Flush, ReleaseAll, SetInjectMode, AbortSequence;
    match op {
      case Hit(_, _) => AbortGrows(s.r, s.b);
      case AutoFire(_, _) => AbortGrows(s.r.(lastAutoFire := s.tick), s.b);
      case DebugKey(down, _, _) => AbortGrows(s.r.(debugKeyWasDown := down), s.b);
      case Act(_) =>
        QueueGrows(s.b, s.r.heldKey, true);
        QueueGrows(s.b, s.r.heldKey, false);
      case HandOver => FlushMoves(s.b);
      case Configure(config) => ConfiguredGrows(s.r, s.b, config);
      case ReleaseKeys => SetInjectModeGrows(s.b, s.b.mode);
      case _ =>
    }
  }

  lemma ConfiguredGrows(r: Reaction, b: Board, config: Config)
    requires Sized(b)
    ensures Log(b) <= Log(OnConfigured(r, b, config).1)
  {
    hide Log, Queue, SetInjectMode, AbortSequence;
    SetInjectModeGrows(b, config.mode);
    var switched := (r.(config := config), SetInjectMode(b, config.mode));
    AbortGrows(switched.0, switched.1);
    var stopped := AbortSequence(switched.0, switched.1);
    AbortGrows(stopped.0, stopped.1);
  }

  // Over whole runs, what was queued stays queued or handed over, in order, and more only comes after it.
  lemma {:induction false} NothingIsLost(s: State, ops: seq<Op>)
    requires Sized(s.b)
    ensures Log(s.b) <= Log(Run(s, ops).b)
  {
    hide Log, Apply;
    if ops != [] {
      NothingIsLost(s, ops[..|ops| - 1]);
      ApplyGrows(Run(s, ops[..|ops| - 1]), ops[|ops| - 1]);
    }
  }
}
