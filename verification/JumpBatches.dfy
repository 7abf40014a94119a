// What reaches the game in one batch, over runs of whole calls (hits, pumps, stop), and what the game sees of it.

module JumpBatches {
  import opened Wrappers
  import opened Keyboard
  import opened KeyDelivery
  import opened JumpReset

  datatype Hit2 = Hit2(at: int, draws: HitDraws)

  // One call into the mod. A pump reads the settings again when its check finds the file changed.
  datatype Call =
    | Hurt(now: int, hit: HitDraws)
    | Pump(now: int, gameThread: bool, reload: Option<Config>, auto: Hit2, keyDown: bool, manual: Hit2, act: ActDraws)
    | Stop
    | Live

  function Expand(c: Call): seq<Op> {
    match c
    case Hurt(now, d) => [Hit(now, d)]
    case Pump(now, gameThread, reload, auto, keyDown, manual, act) =>
      [Tick(now)] + (if reload.Some? then [Configure(reload.value)] else [])
      + [HandOver, AutoFire(auto.at, auto.draws), DebugKey(keyDown, manual.at, manual.draws), Act(act)]
      + (if gameThread then [HandOver] else [])
    case Stop => [ReleaseKeys]
    case Live => [GoLive]
  }

  function RunCalls(s: State, calls: seq<Call>): (t: State)
    requires Sized(s.b)
    ensures Sized(t.b)
  {
    if calls == [] then s else Run(RunCalls(s, calls[..|calls| - 1]), Expand(calls[|calls| - 1]))
  }

  // ---- Batches on their own

  predicate AllPressLast(batches: seq<seq<Transition>>) {
    forall i :: 0 <= i < |batches| ==> PressLast(batches[i])
  }

  predicate AllSingle(batches: seq<seq<Transition>>) {
    forall i :: 0 <= i < |batches| ==> |batches[i]| <= 1
  }

  lemma QueueUp(b: Board, key: int)
    requires |b.held| == KEYS
    ensures NoPress(b.pending) ==> NoPress(Queue(b, key, false).pending)
    ensures Queue(b, key, false).batches == b.batches && Queue(b, key, false).backend == b.backend
  {
  }

  lemma QueueDown(b: Board, key: int)
    requires |b.held| == KEYS && NoPress(b.pending)
    ensures PressLast(Queue(b, key, true).pending)
  {
  }

  lemma NoPressIsPressLast(batch: seq<Transition>)
    requires NoPress(batch)
    ensures PressLast(batch)
  {
  }

  lemma FlushBatch(b: Board)
    requires Sized(b) && Ready(b) && AllPressLast(b.batches) && PressLast(b.pending)
    ensures AllPressLast(Flush(b).batches) && Flush(b).pending == [] && Flush(b).backend == b.backend
  {
    hide Deliver, PressLast;
  }

  lemma {:induction false} ReleaseEachUp(b: Board, keys: seq<int>)
    requires |b.held| == KEYS && NoPress(b.pending)
    ensures var r := ReleaseEach(b, keys); NoPress(r.pending) && r.batches == b.batches && r.backend == b.backend
    decreases keys
  {
    hide Queue, NoPress;
    if keys != [] {
      QueueUp(b, keys[0]);
      ReleaseEachUp(Queue(b, keys[0], false), keys[1..]);
    }
  }

  // ---- The game thread pumps: pending releases only between calls

  // What holds between the calls of a run that is pumped from the game thread only, with injection ready.
  predicate Settled(b: Board) {
    Sized(b) && Ready(b) && AllPressLast(b.batches) && NoPress(b.pending)
  }

  lemma ReleaseAllSettled(b: Board)
    requires Settled(b)
    ensures Settled(ReleaseAll(b))
  {
    hide ReleaseEach, Flush, NoPress, PressLast, AllPressLast, StuckFrom;
    ReleaseEachSized(b, StuckFrom(b.held, 0));
    ReleaseEachUp(b, StuckFrom(b.held, 0));
    var r := ReleaseEach(b, StuckFrom(b.held, 0));
    NoPressIsPressLast(r.pending);
    FlushBatch(r);
    NothingPending();
  }

  lemma NothingPending()
    ensures NoPress([])
  {
  }

  lemma AbortSettled(r: Reaction, b: Board)
    requires Settled(b)
    ensures Settled(AbortSequence(r, b).1)
  {
    hide Queue, NoPress, AllPressLast;
    QueueUp(b, r.heldKey);
    QueueSized(b, r.heldKey, false);
  }

  lemma HurtSettled(r: Reaction, b: Board, now: int, d: HitDraws)
    requires Settled(b)
    ensures Settled(OnHurt(r, b, now, d).1)
  {
    hide Settled, AbortSequence;
    SettledSized(b);
    AbortSettled(r, b);
  }

  lemma SettledSized(b: Board)
    requires Settled(b)
    ensures Sized(b)
  {
  }

  lemma ConfiguredSettled(r: Reaction, b: Board, c: Config)
    requires Settled(b)
    ensures Sized(b) && Settled(OnConfigured(r, b, c).1)
  {
    hide AbortSequence, ReleaseAll, NoPress, AllPressLast;
    ReleaseAllSettled(b);
    var configured := (r.(config := c), SetInjectMode(b, c.mode));
    AbortSettled(configured.0, configured.1);
    var aborted := AbortSequence(configured.0, configured.1);
    AbortSettled(aborted.0, aborted.1);
  }

  lemma FlushSettled(b: Board)
    requires Settled(b)
    ensures Sized(b) && Settled(Flush(b))
  {
    hide Flush, NoPress, AllPressLast, PressLast;
    NoPressIsPressLast(b.pending);
    FlushBatch(b);
    NothingPending();
  }

  lemma ActThenFlush(r: Reaction, b: Board, now: int, d: ActDraws)
    requires Settled(b)
    ensures Sized(b) && Settled(Flush(OnAct(r, b, now, d).1))
  {
    hide Flush, NoPress, AllPressLast, PressLast, Queue;
    QueueUp(b, r.heldKey);
    QueueDown(b, r.heldKey);
    QueueSized(b, r.heldKey, true);
    QueueSized(b, r.heldKey, false);
    NoPressIsPressLast(b.pending);
    NoPressIsPressLast(Queue(b, r.heldKey, false).pending);
    QueueBatches(b, r.heldKey, true);
    var acted := OnAct(r, b, now, d).1;
    FlushBatch(acted);
    NothingPending();
  }

  lemma QueueBatches(b: Board, key: int, down: bool)
    requires |b.held| == KEYS
    ensures Queue(b, key, down).batches == b.batches && Queue(b, key, down).backend == b.backend
  {
  }

  // Every step but the module's visit keeps the board settled.
  lemma QuietOpSettled(s: State, op: Op)
    requires Settled(s.b) && !op.Act?
    ensures Sized(s.b) && Settled(Apply(s, op).b)
  {
    hide Settled, OnHurt, OnConfigured, Flush, ReleaseAll;
    SettledSized(s.b);
    match op {
      case Hit(now, d) => HurtSettled(s.r, s.b, now, d);
      case AutoFire(at, d) => HurtSettled(s.r.(lastAutoFire := s.tick), s.b, at, d);
      case DebugKey(down, at, d) => HurtSettled(s.r.(debugKeyWasDown := down), s.b, at, d);
      case Tick(_) =>
      case HandOver => FlushSettled(s.b);
      case Configure(c) => ConfiguredSettled(s.r, s.b, c);
      case ReleaseKeys => ReleaseAllSettled(s.b);
      case GoLive =>
        if s.b.backend.GameActivity? {
          GoLiveSettled(s.b);
        }
    }
  }

  lemma GoLiveSettled(b: Board)
    requires Settled(b) && b.backend.GameActivity?
    ensures Settled(b.(backend := GameActivity(true)))
  {
  }

  lemma RunOne(s: State, op: Op)
    requires Sized(s.b)
    ensures Run(s, [op]) == Apply(s, op)
  {
    hide Apply;
    assert [op][..0] == [];
  }

  lemma RunAppend(s: State, ops: seq<Op>, op: Op)
    requires Sized(s.b)
    ensures Run(s, ops + [op]) == Apply(Run(s, ops), op)
  {
    hide Apply;
    assert (ops + [op])[..|ops|] == ops;
  }

  lemma {:induction false} QuietRunSettled(s: State, ops: seq<Op>)
    requires Settled(s.b) && Sized(s.b) && forall i :: 0 <= i < |ops| ==> !ops[i].Act?
    ensures Settled(Run(s, ops).b)
  {
    hide Settled, Apply;
    if ops != [] {
      QuietRunSettled(s, ops[..|ops| - 1]);
      QuietOpSettled(Run(s, ops[..|ops| - 1]), ops[|ops| - 1]);
    }
  }

  // The part of a pump before the module's own visit.
  function BeforeAct(c: Call): (ops: seq<Op>)
    requires c.Pump?
    ensures forall i :: 0 <= i < |ops| ==> !ops[i].Act?
  {
    [Tick(c.now)] + (if c.reload.Some? then [Configure(c.reload.value)] else [])
    + [HandOver, AutoFire(c.auto.at, c.auto.draws), DebugKey(c.keyDown, c.manual.at, c.manual.draws)]
  }

  lemma ExpandPump(c: Call)
    requires c.Pump?
    ensures Expand(c) == if c.gameThread then BeforeAct(c) + [Act(c.act)] + [HandOver] else BeforeAct(c) + [Act(c.act)]
  {
  }

  lemma PumpSettled(s: State, c: Call)
    requires Settled(s.b) && Sized(s.b) && c.Pump? && c.gameThread
    ensures Settled(Run(s, Expand(c)).b)
  {
    hide Settled, Run, Apply, OnAct, Flush, Expand, BeforeAct;
    ExpandPump(c);
    QuietRunSettled(s, BeforeAct(c));
    var t := Run(s, BeforeAct(c));
    RunAppend(s, BeforeAct(c), Act(c.act));
    RunAppend(s, BeforeAct(c) + [Act(c.act)], HandOver);
    ActThenDeliver(t, c.act);
  }

  lemma ActThenDeliver(t: State, d: ActDraws)
    requires Settled(t.b) && Sized(t.b)
    ensures Settled(Apply(Apply(t, Act(d)), HandOver).b)
  {
    hide Settled, OnAct, Flush;
    ActThenFlush(t.r, t.b, t.tick, d);
  }

  lemma CallSettled(s: State, c: Call)
    requires Settled(s.b) && Sized(s.b) && (c.Pump? ==> c.gameThread)
    ensures Settled(Run(s, Expand(c)).b)
  {
    hide Settled, Run, Apply;
    match c {
      case Pump(_, _, _, _, _, _, _) => PumpSettled(s, c);
      case Hurt(now, d) => QuietRunSettled(s, [Hit(now, d)]);
      case Stop => QuietRunSettled(s, [ReleaseKeys]);
      case Live => QuietRunSettled(s, [GoLive]);
    }
  }

  // Pumped from the game thread only, with injection ready, no batch ever holds a press and its release: whatever the
  // hits, the reloads, the delays, and even when the mod is stopped.
  lemma {:induction false} GameThreadNeverCollapses(s: State, calls: seq<Call>)
    requires Settled(s.b) && Sized(s.b) && forall i :: 0 <= i < |calls| && calls[i].Pump? ==> calls[i].gameThread
    ensures var t := RunCalls(s, calls);
      Settled(t.b) && forall i :: 0 <= i < |t.b.batches| ==> !Collapses(t.b.batches[i])
  {
    hide Run, Expand, Collapses, PressLast, NoPress;
    if calls != [] {
      GameThreadNeverCollapses(s, calls[..|calls| - 1]);
      CallSettled(RunCalls(s, calls[..|calls| - 1]), calls[|calls| - 1]);
    }
    var t := RunCalls(s, calls);
    forall i | 0 <= i < |t.b.batches|
      ensures !Collapses(t.b.batches[i])
    {
      PressLastNeverCollapses(t.b.batches[i]);
    }
  }

  // ---- The timer pumps: one transition a batch, as long as nothing is cancelled

  predicate Lonely(s: State) {
    Sized(s.b) && AllSingle(s.b.batches) && |s.b.pending| <= 1
  }

  // No hit cancels along the way.
  predicate NoCancel(s: State, ops: seq<Op>)
    requires Sized(s.b)
  {
    ops == [] || (NoCancel(s, ops[..|ops| - 1]) && !Cancels(Run(s, ops[..|ops| - 1]), ops[|ops| - 1]))
  }

  lemma NoCancelAppend(s: State, ops: seq<Op>, op: Op)
    requires Sized(s.b)
    ensures NoCancel(s, ops + [op]) <==> NoCancel(s, ops) && !Cancels(Run(s, ops), op)
  {
    hide Run, Cancels;
    assert (ops + [op])[..|ops|] == ops;
  }

  // A pump of the timer with nothing to read again, or a hit; and no hit in it cancels.
  predicate Plain(s: State, c: Call)
    requires Sized(s.b)
  {
    && !c.Stop? && (c.Pump? ==> !c.gameThread && c.reload.None?)
    && NoCancel(s, Expand(c))
  }

  predicate PlainCalls(s: State, calls: seq<Call>)
    requires Sized(s.b)
  {
    calls == [] || (PlainCalls(s, calls[..|calls| - 1]) && Plain(RunCalls(s, calls[..|calls| - 1]), calls[|calls| - 1]))
  }

  // A hit that does not pass, or finds no sequence to cancel, queues nothing.
  lemma QuietHit(r: Reaction, b: Board, now: int, d: HitDraws)
    requires Sized(b) && !(r.active && Rolls(r, now) && d.pass)
    ensures OnHurt(r, b, now, d).1 == b
  {
    hide Queue;
  }

  lemma FlushSingle(b: Board)
    requires Sized(b) && AllSingle(b.batches) && |b.pending| <= 1
    ensures AllSingle(Flush(b).batches) && |Flush(b).pending| <= 1 && (Ready(b) ==> Flush(b).pending == [])
            && Flush(b).backend == b.backend
  {
    hide Deliver;
  }

  lemma ActAdds(r: Reaction, b: Board, now: int, d: ActDraws)
    requires Sized(b)
    ensures var s := OnAct(r, b, now, d);
      && |s.1.pending| <= |b.pending| + 1 && s.1.batches == b.batches && s.1.backend == b.backend && s.0.config == r.config
  {
  }

  lemma QuietOpLonely(s: State, op: Op)
    requires Lonely(s) && !Cancels(s, op)
    requires op.Hit? || op.AutoFire? || op.DebugKey? || op.HandOver? || op.Tick? || op.GoLive?
    ensures var t := Apply(s, op);
      && Lonely(t) && (Ready(s.b) ==> Ready(t.b))
      && (s.b.pending == [] || (op.HandOver? && Ready(s.b)) ==> t.b.pending == [])
  {
    hide OnHurt, Flush, AllSingle;
    FlushSingle(s.b);
    match op {
      case Hit(now, d) => QuietHit(s.r, s.b, now, d);
      case AutoFire(at, d) =>
        if AutoFires(s.r, s.tick) {
          QuietHit(s.r.(lastAutoFire := s.tick), s.b, at, d);
        }
      case DebugKey(down, at, d) =>
        if DebugFires(s.r, down) {
          QuietHit(s.r.(debugKeyWasDown := down), s.b, at, d);
        }
      case Tick(_) =>
      case HandOver =>
        if s.b.pending == [] {
          FlushNothing(s.b);
        }
      case GoLive =>
    }
  }

  lemma FlushNothing(b: Board)
    requires Sized(b) && b.pending == []
    ensures Flush(b) == b
  {
  }

  lemma ActLonely(s: State, d: ActDraws)
    requires Lonely(s) && s.b.pending == [] && Ready(s.b)
    ensures Lonely(Apply(s, Act(d))) && Ready(Apply(s, Act(d)).b)
  {
    hide OnAct, AllSingle;
    ActAdds(s.r, s.b, s.tick, d);
  }

  lemma PlainPump(s: State, c: Call)
    requires Lonely(s) && Ready(s.b) && Sized(s.b) && c.Pump? && Plain(s, c)
    ensures Lonely(Run(s, Expand(c))) && Ready(Run(s, Expand(c)).b)
  {
    hide Lonely, Apply, Ready, Run, Cancels, NoCancel;
    var o1, o2, o3, o4, o5 := Tick(c.now), HandOver, AutoFire(c.auto.at, c.auto.draws),
        DebugKey(c.keyDown, c.manual.at, c.manual.draws), Act(c.act);
    var a1 := [o1];
    var a2 := a1 + [o2];
    var a3 := a2 + [o3];
    var a4 := a3 + [o4];
    assert Expand(c) == a4 + [o5] && a1 == [] + [o1];
    NoCancelAppend(s, a4, o5);
    NoCancelAppend(s, a3, o4);
    NoCancelAppend(s, a2, o3);
    NoCancelAppend(s, a1, o2);
    RunOne(s, o1);
    RunAppend(s, a1, o2);
    RunAppend(s, a2, o3);
    RunAppend(s, a3, o4);
    RunAppend(s, a4, o5);
    TickNeverCancels(s, c.now);
    QuietOpLonely(s, o1);
    QuietOpLonely(Run(s, a1), o2);
    QuietOpLonely(Run(s, a2), o3);
    QuietOpLonely(Run(s, a3), o4);
    ActLonely(Run(s, a4), c.act);
  }

  lemma TickNeverCancels(s: State, now: int)
    ensures !Cancels(s, Tick(now))
  {
  }

  // Pumped from the timer, with no hit that cancels, no settings read again and no stop, every batch is one transition.
  lemma {:induction false} TimerSendsOneByOne(s: State, calls: seq<Call>)
    requires Lonely(s) && Sized(s.b) && Ready(s.b) && PlainCalls(s, calls)
    ensures var t := RunCalls(s, calls); Lonely(t) && Ready(t.b)
  {
    hide Lonely, Ready, Run, Apply, Cancels;
    if calls != [] {
      var t, c := RunCalls(s, calls[..|calls| - 1]), calls[|calls| - 1];
      TimerSendsOneByOne(s, calls[..|calls| - 1]);
      match c {
        case Pump(_, _, _, _, _, _, _) => PlainPump(t, c);
        case Hurt(now, d) => PlainOne(t, c, Hit(now, d));
        case Live => PlainOne(t, c, GoLive);
      }
    }
  }

  lemma PlainOne(s: State, c: Call, op: Op)
    requires Lonely(s) && Sized(s.b) && Ready(s.b) && Plain(s, c) && Expand(c) == [op] && (op.Hit? || op.GoLive?)
    ensures Lonely(Run(s, Expand(c))) && Ready(Run(s, Expand(c)).b)
  {
    hide Lonely, Ready, Run, Apply, Cancels;
    assert [op] == [] + [op];
    NoCancelAppend(s, [], op);
    RunOne(s, op);
    RunNone(s);
    QuietOpLonely(s, op);
  }

  lemma RunNone(s: State)
    requires Sized(s.b)
    ensures Run(s, []) == s
  {
  }

  // ---- What the game sees, over whole runs on the direct backend

  lemma HurtFaithful(r: Reaction, b: Board, now: int, d: HitDraws)
    requires Faithful(b)
    ensures Sized(b) && Faithful(OnHurt(r, b, now, d).1)
  {
    hide Faithful, Queue;
    FaithfulKept(b);
    QueueFaithful(b, r.heldKey, false);
  }

  lemma ActFaithful(r: Reaction, b: Board, now: int, d: ActDraws)
    requires Faithful(b)
    ensures Sized(b) && Faithful(OnAct(r, b, now, d).1)
  {
    hide Faithful, Queue;
    FaithfulKept(b);
    QueueFaithful(b, r.heldKey, false);
    QueueFaithful(b, r.heldKey, true);
  }

  lemma ConfiguredFaithful(r: Reaction, b: Board, c: Config)
    requires Faithful(b)
    ensures Sized(b) && Faithful(OnConfigured(r, b, c).1)
  {
    hide Faithful, Queue, SetInjectMode;
    FaithfulKept(b);
    SetInjectModeFaithful(b, c.mode);
    var b1 := SetInjectMode(b, c.mode);
    QueueFaithful(b1, r.heldKey, false);
    var b2 := Queue(b1, r.heldKey, false);
    FaithfulKept(b2);
    QueueFaithful(b2, r.heldKey, false);
  }

  lemma ApplyFaithful(s: State, op: Op)
    requires Faithful(s.b)
    ensures Sized(s.b) && Faithful(Apply(s, op).b)
  {
    hide Faithful, OnHurt, OnAct, OnConfigured, Flush, ReleaseAll;
    FaithfulKept(s.b);
    match op {
      case Hit(now, d) => HurtFaithful(s.r, s.b, now, d);
      case AutoFire(at, d) => HurtFaithful(s.r.(lastAutoFire := s.tick), s.b, at, d);
      case DebugKey(down, at, d) => HurtFaithful(s.r.(debugKeyWasDown := down), s.b, at, d);
      case Act(d) => ActFaithful(s.r, s.b, s.tick, d);
      case HandOver => FlushFaithful(s.b);
      case Configure(c) => ConfiguredFaithful(s.r, s.b, c);
      case ReleaseKeys => ReleaseAllFaithful(s.b);
      case _ =>
    }
  }

  lemma {:induction false} RunFaithful(s: State, ops: seq<Op>)
    requires Faithful(s.b) && Sized(s.b)
    ensures Faithful(Run(s, ops).b)
  {
    hide Faithful, Apply;
    if ops != [] {
      RunFaithful(s, ops[..|ops| - 1]);
      ApplyFaithful(Run(s, ops[..|ops| - 1]), ops[|ops| - 1]);
    }
  }

  // In every run, whenever nothing is pending, the game sees a key of ours as down only in the hold phase of a sequence on
  // that key, in whatever mode; and what it does see it sees exactly where the mode shows it.
  lemma GameNeverSeesStuckKey(s: State, ops: seq<Op>, k: int)
    requires Faithful(s.b) && Safe(s.r, s.b) && Sized(s.b) && 0 <= k < KEYS
    ensures var t := Run(s, ops); Faithful(t.b) && (t.b.pending == [] ==>
      && (t.b.game.states[k] == 1 <==> t.b.mode != EventsOnly && t.b.held[k])
      && (Down(Events(t.b.game.inputs), k) <==> t.b.mode != StatesOnly && t.b.held[k])
      && (t.b.held[k] ==> t.r.active && t.r.holding && k == t.r.heldKey))
  {
    hide Run, Kept, Shows, Down, Events;
    RunFaithful(s, ops);
    NoStuckKey(s, ops);
    var t := Run(s, ops);
    if t.b.pending == [] {
      GameSeesWhatIsHeld(t.b, k);
    }
  }
}
