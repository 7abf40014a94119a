// The keyboard, the module and the pump as they are written: objects that update their fields in place. Every method is
// proved to take the value it stands for to the value the functions of Keyboard and JumpReset give.

module KeyMachine {
  import opened Wrappers
  import K = Keyboard
  import J = JumpReset
  import B = JumpBatches
  import D = KeyDelivery

  // src/keyboard.cpp
  class KeyQueue {
    const held: array<bool>
    const states: array<int>
    var pending: seq<K.Transition>
    var mode: K.Mode
    var backend: K.Backend
    var controllerId: int
    var inputs: seq<K.InputEvent>
    ghost var batches: seq<seq<K.Transition>>

    constructor (backend: K.Backend, controllerId: int)
      ensures Valid() && fresh(held) && fresh(states)
      ensures Value() == Fresh(backend, controllerId)
    {
      held := new bool[K.KEYS](_ => false);
      states := new int[K.KEYS](_ => 0);
      this.backend, this.controllerId := backend, controllerId;
      pending, mode, inputs, batches := [], K.EventsAndStates, [], [];
      new;
      assert held[..] == seq(K.KEYS, _ => false);
      assert states[..] == seq(K.KEYS, _ => 0);
    }

    ghost predicate Valid()
      reads this, held, states
    {
      held.Length == K.KEYS && states.Length == K.KEYS && K.Sized(Value())
    }

    ghost function Value(): K.Board
      reads this, held, states
    {
      K.Board(held[..], pending, mode, backend, K.Game(states[..], inputs, controllerId), batches)
    }

    method Queue(key: int, down: bool)
      requires Valid()
      modifies this`pending, held
      ensures Valid() && Value() == K.Queue(old(Value()), key, down)
    {
      K.QueueSized(Value(), key, down);
      if key <= 0 || key > 0xff {
        return;
      }
      if held[key] == down {
        return;
      }
      held[key] := down;
      pending := pending + [K.Transition(key, down)];
      assert held[..] == old(held[..])[key := down];
    }

    method Press(key: int)
      requires Valid()
      modifies this`pending, held
      ensures Valid() && Value() == K.Queue(old(Value()), key, true)
    {
      Queue(key, true);
    }

    method Release(key: int)
      requires Valid()
      modifies this`pending, held
      ensures Valid() && Value() == K.Queue(old(Value()), key, false)
    {
      Queue(key, false);
    }

    method Holding(key: int) returns (down: bool)
      requires Valid()
      ensures down == (K.InRange(key) && Value().held[key])
    {
      if key <= 0 || key > 0xff {
        return false;
      }
      return held[key];
    }

    method Ready() returns (ready: bool)
      ensures ready == K.Ready(Value())
    {
      if backend.Direct? {
        return true;
      }
      if backend.GameActivity? {
        return backend.live;
      }
      return false;
    }

    // One transition, on the direct backend.
    method DeliverOne(item: K.Transition)
      requires Valid() && backend.Direct? && K.InRange(item.key)
      modifies this`inputs, states
      ensures Valid()
      ensures Value() == old(Value()).(game := K.DeliverOne(old(Value()).game, mode, backend.legacy, item))
    {
      var state := if item.down then 1 else 0;
      if mode != K.EventsOnly {
        states[item.key] := state;
        assert states[..] == old(states[..])[item.key := state];
      }
      if mode == K.StatesOnly {
        return;
      }
      if backend.legacy {
        inputs := inputs + [K.Legacy(item.key, item.down, controllerId)];
      } else {
        inputs := inputs + [K.Modern(item.key, item.down, controllerId, states[16], states[17], states[18])];
      }
    }

    method Flush()
      requires Valid()
      modifies this`pending, this`inputs, this`batches, states
      ensures Valid() && Value() == K.Flush(old(Value()))
    {
      hide K.DeliverOne;
      var ready := Ready();
      if !ready || pending == [] {
        return;
      }
      var batch := pending;
      pending, batches := [], batches + [pending];
      if backend.GameActivity? {
        return;
      }
      ghost var start := Value();
      assert batch[..0] == [];
      for i := 0 to |batch|
        invariant Valid() && Value() == start.(game := K.Deliver(start.game, mode, backend.legacy, batch[..i]))
      {
        assert batch[..i + 1][..i] == batch[..i];
        DeliverOne(batch[i]);
      }
      assert batch[..|batch|] == batch;
    }

    method StuckKeys() returns (stuck: seq<int>)
      requires Valid()
      ensures stuck == K.StuckFrom(held[..], 0)
    {
      hide K.StuckFrom;
      stuck := [];
      var key := 0;
      assert [] + K.StuckFrom(held[..], 0) == K.StuckFrom(held[..], 0);
      while key < K.KEYS
        invariant 0 <= key <= K.KEYS && K.StuckFrom(held[..], 0) == stuck + K.StuckFrom(held[..], key)
      {
        K.StuckStep(held[..], key);
        if held[key] {
          stuck := stuck + [key];
        }
        key := key + 1;
      }
      K.StuckStep(held[..], key);
    }

    method ReleaseAll()
      requires Valid()
      modifies this`pending, this`inputs, this`batches, held, states
      ensures Valid() && Value() == K.ReleaseAll(old(Value()))
    {
      hide K.Flush, K.Queue, K.StuckFrom;
      var stuck := StuckKeys();
      K.ReleaseEachSized(old(Value()), stuck);
      for i := 0 to |stuck|
        invariant Valid() && K.ReleaseEach(Value(), stuck[i..]) == K.ReleaseEach(old(Value()), stuck)
      {
        assert stuck[i..][0] == stuck[i] && stuck[i..][1..] == stuck[i + 1..];
        Release(stuck[i]);
      }
      assert stuck[|stuck|..] == [];
      Flush();
    }

    method SetInjectMode(next: K.Mode)
      requires Valid()
      modifies this`pending, this`inputs, this`batches, this`mode, held, states
      ensures Valid() && Value() == K.SetInjectMode(old(Value()), next)
    {
      hide K.ReleaseAll;
      if mode == next {
        return;
      }
      ReleaseAll();
      mode := next;
    }
  }

  ghost function Fresh(backend: K.Backend, controllerId: int): K.Board {
    K.Board(seq(K.KEYS, _ => false), [], K.EventsAndStates, backend, K.Game(seq(K.KEYS, _ => 0), [], controllerId), [])
  }

  // src/modules/auto_jump_reset.cpp. The settings are bound all at once, so they stay one value.
  class AutoJumpReset {
    const keys: KeyQueue
    var config: J.Config
    var active: bool
    var holding: bool
    var heldKey: int
    var pressesLeft: int
    var nextActionAt: int
    var cooldownUntil: int
    var debugKeyWasDown: bool
    var lastAutoFire: int

    constructor (keys: KeyQueue, config: J.Config)
      ensures this.keys == keys && Value() == Idle(config)
    {
      this.keys, this.config := keys, config;
      active, holding, heldKey, pressesLeft := false, false, 32, 0;
      nextActionAt, cooldownUntil, debugKeyWasDown, lastAutoFire := 0, 0, false, 0;
    }

    ghost function Value(): J.Reaction
      reads this
    {
      J.Reaction(config, active, holding, heldKey, pressesLeft, nextActionAt, cooldownUntil, debugKeyWasDown, lastAutoFire)
    }

    ghost predicate Valid()
      reads this, keys, keys.held, keys.states
    {
      keys.Valid()
    }

    method AbortSequence()
      requires Valid()
      modifies this, keys`pending, keys.held
      ensures Valid() && (Value(), keys.Value()) == J.AbortSequence(old(Value()), old(keys.Value()))
    {
      hide K.Queue;
      if !active && !holding {
        return;
      }
      if holding {
        keys.Release(heldKey);
      }
      active := false;
      holding := false;
      pressesLeft := 0;
    }

    method OnConfigured(enabledChanged: bool)
      requires Valid()
      modifies this, keys`pending, keys`inputs, keys`batches, keys`mode, keys.held, keys.states
      ensures Valid() && (Value(), keys.Value()) == J.AfterSettings(old(Value()), old(keys.Value()), enabledChanged)
    {
      hide K.SetInjectMode, J.AbortSequence;
      keys.SetInjectMode(config.mode);
      if enabledChanged && !config.enabled {
        AbortSequence();
      }
      if active && heldKey != config.key {
        AbortSequence();
      }
    }

    // ModuleManager::applyConfig for this module.
    method Configure(next: J.Config)
      requires Valid()
      modifies this, keys`pending, keys`inputs, keys`batches, keys`mode, keys.held, keys.states
      ensures Valid() && (Value(), keys.Value()) == J.OnConfigured(old(Value()), old(keys.Value()), next)
    {
      hide J.AfterSettings;
      var wasEnabled := config.enabled;
      config := next;
      OnConfigured(wasEnabled != config.enabled);
    }

    method OnLocalPlayerHurt(now: int, d: J.HitDraws)
      requires Valid()
      modifies this, keys`pending, keys.held
      ensures Valid() && (Value(), keys.Value()) == J.OnHurt(old(Value()), old(keys.Value()), now, d)
    {
      hide J.AbortSequence;
      if !config.enabled {
        return;
      }
      if now < cooldownUntil {
        return;
      }
      if active && !config.cancelOnNewHit {
        return;
      }
      if !d.pass {
        cooldownUntil := now + d.cooldown;
        return;
      }
      if active {
        AbortSequence();
      }
      active := true;
      pressesLeft := d.repeats;
      if pressesLeft < 1 {
        pressesLeft := 1;
      }
      heldKey := config.key;
      holding := false;
      nextActionAt := now + d.delay;
    }

    method PollAutoFire(now: int, auto: B.Hit2)
      requires Valid()
      modifies this, keys`pending, keys.held
      ensures Valid() && (Value(), keys.Value()) == J.OnAutoFire(old(Value()), old(keys.Value()), now, auto.at, auto.draws)
    {
      hide J.OnHurt;
      if config.enabled && config.debugAutoFireMs > 0 && now - lastAutoFire >= config.debugAutoFireMs {
        lastAutoFire := now;
        OnLocalPlayerHurt(auto.at, auto.draws);
      }
    }

    method PollTriggerKey(keyDown: bool, manual: B.Hit2)
      requires Valid()
      modifies this, keys`pending, keys.held
      ensures Valid()
      ensures (Value(), keys.Value()) == J.OnDebugKey(old(Value()), old(keys.Value()), keyDown, manual.at, manual.draws)
    {
      hide J.OnHurt;
      if !config.enabled || config.debugKey <= 0 {
        return;
      }
      if keyDown && !debugKeyWasDown {
        HurtIgnoresKeyState(Value(), keys.Value(), manual.at, manual.draws);
        OnLocalPlayerHurt(manual.at, manual.draws);
      }
      debugKeyWasDown := keyDown;
    }

    method OnTick(now: int, auto: B.Hit2, keyDown: bool, manual: B.Hit2, d: J.ActDraws)
      requires Valid()
      modifies this, keys`pending, keys.held
      ensures Valid()
      ensures var fired := J.OnAutoFire(old(Value()), old(keys.Value()), now, auto.at, auto.draws);
        var polled := J.OnDebugKey(fired.0, fired.1, keyDown, manual.at, manual.draws);
        (Value(), keys.Value()) == J.OnAct(polled.0, polled.1, now, d)
    {
      hide J.OnAutoFire, J.OnDebugKey, K.Queue;
      PollAutoFire(now, auto);
      PollTriggerKey(keyDown, manual);
      if !active {
        return;
      }
      if now < nextActionAt {
        return;
      }
      if !holding {
        keys.Press(heldKey);
        holding := true;
        nextActionAt := now + d.hold;
        return;
      }
      keys.Release(heldKey);
      holding := false;
      pressesLeft := pressesLeft - 1;
      if pressesLeft > 0 {
        nextActionAt := now + d.release;
        return;
      }
      active := false;
      cooldownUntil := now + d.cooldown;
    }
  }

  ghost function Idle(config: J.Config): J.Reaction {
    J.Reaction(config, false, false, 32, 0, 0, 0, false, 0)
  }

  lemma HurtIgnoresKeyState(r: J.Reaction, b: K.Board, now: int, d: J.HitDraws)
    requires K.Sized(b)
    ensures var x, y := J.OnHurt(r, b, now, d), J.OnHurt(r.(debugKeyWasDown := true), b, now, d);
      x.0.(debugKeyWasDown := true) == y.0 && x.1 == y.1
  {
  }

  // src/tick.cpp
  class Ticker {
    const keys: KeyQueue
    const jumpReset: AutoJumpReset
    var lastTick: int
    var lastConfigCheck: int
    ghost var clock: int
    ghost var tick: int
    ghost var acted: bool

    constructor (keys: KeyQueue, jumpReset: AutoJumpReset)
      requires keys.Valid() && jumpReset.keys == keys
      ensures this.keys == keys && this.jumpReset == jumpReset && Valid() && lastTick == 0 && lastConfigCheck == 0
      ensures clock == 0 && tick == 0 && acted
    {
      this.keys, this.jumpReset := keys, jumpReset;
      lastTick, lastConfigCheck, clock, tick, acted := 0, 0, 0, 0, true;
    }

    ghost predicate Valid()
      reads this, jumpReset, keys, keys.held, keys.states
    {
      jumpReset.keys == keys && keys.Valid()
    }

    ghost function Value(): J.State
      reads this, jumpReset, keys, keys.held, keys.states
    {
      J.State(jumpReset.Value(), keys.Value(), clock, tick, acted)
    }

    // A hit, from the damage hook.
    method Hurt(now: int, d: J.HitDraws)
      requires Valid()
      modifies this`clock, jumpReset, keys`pending, keys.held
      ensures Valid() && Value() == J.Run(old(Value()), B.Expand(B.Hurt(now, d)))
    {
      hide J.OnHurt;
      B.RunOne(old(Value()), J.Hit(now, d));
      jumpReset.OnLocalPlayerHurt(now, d);
      clock := now;
    }

    // `changed` is what reloadIfChanged() would read; it is only asked every half second.
    method Pump(now: int, gameThread: bool, changed: Option<J.Config>, auto: B.Hit2, keyDown: bool, manual: B.Hit2,
                d: J.ActDraws)
      requires Valid()
      modifies this, jumpReset, keys`pending, keys`inputs, keys`batches, keys`mode, keys.held, keys.states
      ensures Valid() && lastTick == now
      ensures lastConfigCheck == if now - old(lastConfigCheck) >= 500 then now else old(lastConfigCheck)
      ensures var reload := if now - old(lastConfigCheck) >= 500 then changed else None;
        Value() == J.Run(old(Value()), B.Expand(B.Pump(now, gameThread, reload, auto, keyDown, manual, d)))
    {
      hide J.Apply, J.Run, J.OnConfigured, J.OnAct, J.OnAutoFire, J.OnDebugKey, K.Flush;
      ghost var s0 := Value();
      lastTick := now;
      clock, tick, acted := now, now, false;
      TickStep(s0, now);
      ghost var reload: Option<J.Config> := None;
      if now - lastConfigCheck >= 500 {
        lastConfigCheck := now;
        if changed.Some? {
          reload := changed;
          ConfigureStep(Value(), changed.value);
          jumpReset.Configure(changed.value);
        }
      }
      ghost var s1 := Value();
      keys.Flush();
      jumpReset.OnTick(now, auto, keyDown, manual, d);
      VisitIs(s1, auto, keyDown, manual, d);
      ghost var visited := AfterVisit(s1, auto, keyDown, manual, d);
      clock, acted := visited.clock, true;
      FlushStep(visited);
      if gameThread {
        keys.Flush();
      }
      PumpRuns(s0, B.Pump(now, gameThread, reload, auto, keyDown, manual, d), s1, Value());
    }

    method Stop()
      requires Valid()
      modifies keys`pending, keys`inputs, keys`batches, keys.held, keys.states
      ensures Valid() && Value() == J.Run(old(Value()), B.Expand(B.Stop))
    {
      hide K.ReleaseAll;
      B.RunOne(old(Value()), J.ReleaseKeys);
      keys.ReleaseAll();
    }
  }

  lemma TickStep(s: J.State, now: int)
    requires K.Sized(s.b)
    ensures J.Apply(s, J.Tick(now)) == s.(clock := now, tick := now, acted := false)
  {
  }

  lemma ConfigureStep(s: J.State, c: J.Config)
    requires K.Sized(s.b)
    ensures J.Apply(s, J.Configure(c)) == J.With(s, J.OnConfigured(s.r, s.b, c))
  {
    hide J.OnConfigured;
  }

  // The steps of a pump from its first flush to the module's visit.
  ghost function AfterVisit(s: J.State, auto: B.Hit2, keyDown: bool, manual: B.Hit2, d: J.ActDraws): (t: J.State)
    requires K.Sized(s.b)
    ensures K.Sized(t.b)
  {
    var fired := J.Apply(J.Apply(s, J.HandOver), J.AutoFire(auto.at, auto.draws));
    J.Apply(J.Apply(fired, J.DebugKey(keyDown, manual.at, manual.draws)), J.Act(d))
  }

  lemma VisitIs(s: J.State, auto: B.Hit2, keyDown: bool, manual: B.Hit2, d: J.ActDraws)
    requires K.Sized(s.b)
    ensures var fired := J.OnAutoFire(s.r, K.Flush(s.b), s.tick, auto.at, auto.draws);
      var polled := J.OnDebugKey(fired.0, fired.1, keyDown, manual.at, manual.draws);
      var visited := J.OnAct(polled.0, polled.1, s.tick, d);
      var t := AfterVisit(s, auto, keyDown, manual, d);
      t == J.State(visited.0, visited.1, t.clock, s.tick, true)
  {
    hide J.OnAutoFire, J.OnDebugKey, J.OnAct, K.Flush, J.AutoFires, J.DebugFires;
  }

  lemma FlushStep(s: J.State)
    requires K.Sized(s.b)
    ensures J.Apply(s, J.HandOver) == s.(b := K.Flush(s.b))
  {
  }

  // The steps of a pump, as a list.
  ghost function Steps(c: B.Call, start: seq<J.Op>): seq<J.Op>
    requires c.Pump?
  {
    start + [J.HandOver] + [J.AutoFire(c.auto.at, c.auto.draws)]
    + [J.DebugKey(c.keyDown, c.manual.at, c.manual.draws)] + [J.Act(c.act)]
  }

  lemma ExpandIs(c: B.Call)
    requires c.Pump?
    ensures var steps := Steps(c, [J.Tick(c.now)] + if c.reload.Some? then [J.Configure(c.reload.value)] else []);
      B.Expand(c) == if c.gameThread then steps + [J.HandOver] else steps
  {
  }

  lemma StepsRun(s0: J.State, c: B.Call, start: seq<J.Op>, s1: J.State)
    requires c.Pump? && K.Sized(s0.b) && J.Run(s0, start) == s1
    ensures J.Run(s0, Steps(c, start)) == AfterVisit(s1, c.auto, c.keyDown, c.manual, c.act)
  {
    hide J.Apply, J.Run;
    var a := start + [J.HandOver];
    var b := a + [J.AutoFire(c.auto.at, c.auto.draws)];
    var d := b + [J.DebugKey(c.keyDown, c.manual.at, c.manual.draws)];
    B.RunAppend(s0, start, J.HandOver);
    B.RunAppend(s0, a, J.AutoFire(c.auto.at, c.auto.draws));
    B.RunAppend(s0, b, J.DebugKey(c.keyDown, c.manual.at, c.manual.draws));
    B.RunAppend(s0, d, J.Act(c.act));
  }

  lemma PumpRuns(s0: J.State, c: B.Call, s1: J.State, t: J.State)
    requires c.Pump? && K.Sized(s0.b) && K.Sized(s1.b)
    requires var ticked := J.Apply(s0, J.Tick(c.now));
      s1 == if c.reload.Some? then J.Apply(ticked, J.Configure(c.reload.value)) else ticked
    requires var acted := AfterVisit(s1, c.auto, c.keyDown, c.manual, c.act);
      t == if c.gameThread then J.Apply(acted, J.HandOver) else acted
    ensures t == J.Run(s0, B.Expand(c))
  {
    hide J.Apply, J.Run, AfterVisit, Steps, B.Expand;
    var tick := [J.Tick(c.now)];
    var start := tick + if c.reload.Some? then [J.Configure(c.reload.value)] else [];
    B.RunOne(s0, J.Tick(c.now));
    if c.reload.Some? {
      B.RunAppend(s0, tick, J.Configure(c.reload.value));
    } else {
      assert start == tick;
    }
    StepsRun(s0, c, start, s1);
    ExpandIs(c);
    B.RunAppend(s0, Steps(c, start), J.HandOver);
  }

  // Where every run starts: what the theorems about runs ask for holds of newly made objects.
  lemma FreshIsSafe(config: J.Config, backend: K.Backend, controllerId: int)
    ensures J.Safe(Idle(config), Fresh(backend, controllerId))
    ensures K.Ready(Fresh(backend, controllerId)) ==> B.Settled(Fresh(backend, controllerId))
    ensures backend.Direct? ==> D.Faithful(Fresh(backend, controllerId))
  {
    var b := Fresh(backend, controllerId);
    assert K.Log(b) == [];
    assert D.Events(b.game.inputs) == [];
  }
}
