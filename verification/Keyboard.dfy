// src/keyboard.cpp on values: the deduplicating queue of key transitions, and what a flush hands to the game.

module Keyboard {
  const KEYS := 256

  datatype Transition = Transition(key: int, down: bool)

  datatype Mode = EventsAndStates | StatesOnly | EventsOnly

  datatype Backend = NoBackend | Direct(legacy: bool) | GameActivity(live: bool)

  datatype InputEvent =
    | Modern(key: int, down: bool, controllerId: int, shift: int, ctrl: int, alt: int)
    | Legacy(key: int, down: bool, controllerId: int)

  // What the game sees on the direct backend: the state array and the queue of events pushed to it.
  datatype Game = Game(states: seq<int>, inputs: seq<InputEvent>, controllerId: int)

  // `batches` is history: every batch handed over so far, on either backend.
  datatype Board = Board(held: seq<bool>, pending: seq<Transition>, mode: Mode, backend: Backend, game: Game,
                         batches: seq<seq<Transition>>)

  predicate InRange(key: int) {
    0 < key < KEYS
  }

  predicate Ready(b: Board) {
    b.backend.Direct? || (b.backend.GameActivity? && b.backend.live)
  }

  // ---- Operations

  function Queue(b: Board, key: int, down: bool): (r: Board)
    requires |b.held| == KEYS
    ensures |r.held| == KEYS
  {
    if !InRange(key) || b.held[key] == down then b
    else b.(held := b.held[key := down], pending := b.pending + [Transition(key, down)])
  }

  function Level(down: bool): int {
    if down then 1 else 0
  }

  function EventOf(legacy: bool, g: Game, t: Transition): InputEvent
    requires |g.states| == KEYS
  {
    if legacy then Legacy(t.key, t.down, g.controllerId)
    else Modern(t.key, t.down, g.controllerId, g.states[16], g.states[17], g.states[18])
  }

  function DeliverOne(g: Game, mode: Mode, legacy: bool, t: Transition): (r: Game)
    requires |g.states| == KEYS && InRange(t.key)
    ensures |r.states| == KEYS && r.controllerId == g.controllerId
  {
    var shown := if mode == EventsOnly then g else g.(states := g.states[t.key := Level(t.down)]);
    if mode == StatesOnly then shown else shown.(inputs := shown.inputs + [EventOf(legacy, shown, t)])
  }

  function Deliver(g: Game, mode: Mode, legacy: bool, batch: seq<Transition>): (r: Game)
    requires |g.states| == KEYS && forall i :: 0 <= i < |batch| ==> InRange(batch[i].key)
    ensures |r.states| == KEYS && r.controllerId == g.controllerId
  {
    if batch == [] then g
    else DeliverOne(Deliver(g, mode, legacy, batch[..|batch| - 1]), mode, legacy, batch[|batch| - 1])
  }

  predicate Sized(b: Board) {
    |b.held| == KEYS && |b.game.states| == KEYS && forall i :: 0 <= i < |b.pending| ==> InRange(b.pending[i].key)
  }

  function Flush(b: Board): (r: Board)
    requires Sized(b)
    ensures Sized(r) && r.held == b.held
  {
    if !Ready(b) || b.pending == [] then b
    else
      var game := if b.backend.Direct? then Deliver(b.game, b.mode, b.backend.legacy, b.pending) else b.game;
      b.(pending := [], game := game, batches := b.batches + [b.pending])
  }

  // The keys held, in increasing order, from `key` on.
  function StuckFrom(held: seq<bool>, key: nat): seq<int>
    requires |held| == KEYS && key <= KEYS
    decreases KEYS - key
  {
    if key == KEYS then [] else (if held[key] then [key] else []) + StuckFrom(held, key + 1)
  }

  function ReleaseEach(b: Board, keys: seq<int>): (r: Board)
    requires |b.held| == KEYS
    ensures |r.held| == KEYS
    decreases keys
  {
    if keys == [] then b else ReleaseEach(Queue(b, keys[0], false), keys[1..])
  }

  lemma QueueSized(b: Board, key: int, down: bool)
    requires Sized(b)
    ensures Sized(Queue(b, key, down))
  {
  }

  lemma {:induction false} ReleaseEachSized(b: Board, keys: seq<int>)
    requires Sized(b)
    ensures Sized(ReleaseEach(b, keys))
    decreases keys
  {
    if keys != [] {
      QueueSized(b, keys[0], false);
      ReleaseEachSized(Queue(b, keys[0], false), keys[1..]);
    }
  }

  function ReleaseAll(b: Board): (r: Board)
    requires Sized(b)
    ensures Sized(r)
  {
    ReleaseEachSized(b, StuckFrom(b.held, 0));
    Flush(ReleaseEach(b, StuckFrom(b.held, 0)))
  }

  function SetInjectMode(b: Board, mode: Mode): (r: Board)
    requires Sized(b)
    ensures Sized(r)
  {
    if b.mode == mode then b else ReleaseAll(b).(mode := mode)
  }

  // ---- History: everything queued so far is what was handed over, then what is pending

  function Flatten(batches: seq<seq<Transition>>): seq<Transition> {
    if batches == [] then [] else Flatten(batches[..|batches| - 1]) + batches[|batches| - 1]
  }

  function Sent(b: Board): seq<Transition> {
    Flatten(b.batches)
  }

  function Log(b: Board): seq<Transition> {
    Sent(b) + b.pending
  }

  // Whether the last transition of a key left it down.
  predicate Down(ts: seq<Transition>, key: int) {
    if ts == [] then false
    else if ts[|ts| - 1].key == key then ts[|ts| - 1].down
    else Down(ts[..|ts| - 1], key)
  }

  // Per key, transitions alternate, starting with down.
  predicate Alternates(ts: seq<Transition>) {
    ts == [] || (Alternates(ts[..|ts| - 1]) && ts[|ts| - 1].down != Down(ts[..|ts| - 1], ts[|ts| - 1].key))
  }

  predicate KeysOk(ts: seq<Transition>) {
    forall i :: 0 <= i < |ts| ==> InRange(ts[i].key)
  }

  // The queue's history is well formed, and what is held is what it left down.
  predicate Kept(b: Board) {
    && Sized(b) && KeysOk(Log(b)) && Alternates(Log(b))
    && forall k :: 0 <= k < KEYS ==> (b.held[k] <==> Down(Log(b), k))
  }

  lemma DownAppend(ts: seq<Transition>, t: Transition, key: int)
    ensures Down(ts + [t], key) == if t.key == key then t.down else Down(ts, key)
  {
    assert (ts + [t])[..|ts|] == ts;
  }

  lemma AlternatesAppend(ts: seq<Transition>, t: Transition)
    ensures Alternates(ts + [t]) <==> Alternates(ts) && t.down != Down(ts, t.key)
  {
    assert (ts + [t])[..|ts|] == ts;
  }

  lemma FlattenAppend(batches: seq<seq<Transition>>, batch: seq<Transition>)
    ensures Flatten(batches + [batch]) == Flatten(batches) + batch
  {
    assert (batches + [batch])[..|batches|] == batches;
  }

  // A request is dropped exactly when the key is out of range or already so; otherwise it joins the history.
  lemma QueueLogs(b: Board, key: int, down: bool)
    requires |b.held| == KEYS
    ensures InRange(key) <==> 1 <= key <= 255
    ensures var r := Queue(b, key, down);
      && r.batches == b.batches && r.mode == b.mode && r.backend == b.backend && r.game == b.game
      && Log(r) == (if InRange(key) && b.held[key] != down then Log(b) + [Transition(key, down)] else Log(b))
      && forall k :: 0 <= k < KEYS ==> r.held[k] == if k == key && InRange(key) then down else b.held[k]
  {
    hide Flatten;
    assert Sent(b) + (b.pending + [Transition(key, down)]) == (Sent(b) + b.pending) + [Transition(key, down)];
  }

  lemma QueueKeeps(b: Board, key: int, down: bool)
    requires Kept(b)
    ensures Kept(Queue(b, key, down))
  {
    hide Flatten, Down, Alternates, Log, Queue;
    var r, t := Queue(b, key, down), Transition(key, down);
    QueueLogs(b, key, down);
    QueueSized(b, key, down);
    if InRange(key) && b.held[key] != down {
      AlternatesAppend(Log(b), t);
      forall k | 0 <= k < KEYS
        ensures r.held[k] <==> Down(Log(r), k)
      {
        DownAppend(Log(b), t, k);
      }
    }
  }

  // A flush hands over all that is pending, in order, when the backend is ready, and nothing otherwise.
  lemma FlushMoves(b: Board)
    requires Sized(b)
    ensures Ready(b) <==> b.backend.Direct? || b.backend == GameActivity(true)
    ensures var r := Flush(b);
      && Log(r) == Log(b) && r.held == b.held && r.mode == b.mode && r.backend == b.backend
      && (Ready(b) ==> r.pending == [] && Sent(r) == Log(b))
      && (!Ready(b) ==> r == b)
  {
    hide Flatten, Deliver;
    assert Sent(b) + [] == Sent(b);
    if Ready(b) && b.pending != [] {
      FlattenAppend(b.batches, b.pending);
      assert Log(b) + [] == Log(b);
    }
  }

  lemma FlushKeeps(b: Board)
    requires Kept(b)
    ensures Kept(Flush(b))
  {
    hide Flatten, Down, Alternates, Log, Flush;
    FlushMoves(b);
  }

  // ---- Release all

  lemma StuckStep(held: seq<bool>, key: nat)
    requires |held| == KEYS && key <= KEYS
    ensures StuckFrom(held, key)
         == if key == KEYS then [] else if held[key] then [key] + StuckFrom(held, key + 1) else StuckFrom(held, key + 1)
  {
    if key < KEYS && !held[key] {
      assert [] + StuckFrom(held, key + 1) == StuckFrom(held, key + 1);
    }
  }

  lemma {:induction false} StuckAreHeld(held: seq<bool>, from: nat, key: int)
    requires |held| == KEYS && from <= KEYS
    ensures key in StuckFrom(held, from) <==> from <= key < KEYS && held[key]
    decreases KEYS - from
  {
    hide StuckFrom;
    StuckStep(held, from);
    if from < KEYS {
      StuckAreHeld(held, from + 1, key);
    }
  }

  lemma {:induction false} ReleaseEachKeeps(b: Board, keys: seq<int>)
    requires Kept(b)
    ensures Kept(ReleaseEach(b, keys))
    decreases keys
  {
    hide Kept, Queue;
    if keys != [] {
      assert |b.held| == KEYS by { KeptSized(b); }
      QueueKeeps(b, keys[0], false);
      ReleaseEachKeeps(Queue(b, keys[0], false), keys[1..]);
    }
  }

  lemma KeptSized(b: Board)
    requires Kept(b)
    ensures Sized(b)
  {
    hide Log, Down, Alternates;
  }

  // Releasing a list of keys leaves exactly the other held keys held, and queues only releases.
  lemma {:induction false} ReleaseEachReleases(b: Board, keys: seq<int>)
    requires |b.held| == KEYS
    ensures var r := ReleaseEach(b, keys);
      && r.batches == b.batches && r.mode == b.mode && r.backend == b.backend && r.game == b.game
      && (forall k :: 0 <= k < KEYS ==> r.held[k] == (b.held[k] && !(InRange(k) && k in keys)))
    decreases keys
  {
    hide Flatten, Log, Queue;
    if keys != [] {
      QueueLogs(b, keys[0], false);
      ReleaseEachReleases(Queue(b, keys[0], false), keys[1..]);
    }
  }

  lemma ReleaseAllReleases(b: Board)
    requires Kept(b)
    ensures var r := ReleaseAll(b);
      && Kept(r) && r.mode == b.mode && r.backend == b.backend
      && (forall k :: 0 <= k < KEYS ==> !r.held[k])
      && (Ready(b) ==> r.pending == [])
  {
    hide Flatten, Down, Alternates, Log, Flush, ReleaseEach, StuckFrom, Kept;
    KeptSized(b);
    var keys := StuckFrom(b.held, 0);
    ReleaseEachSized(b, keys);
    ReleaseEachKeeps(b, keys);
    ReleaseEachReleases(b, keys);
    var released := ReleaseEach(b, keys);
    FlushKeeps(released);
    FlushMoves(released);
    KeptHoldsNoZero(b);
    forall k | 0 <= k < KEYS
      ensures !Flush(released).held[k]
    {
      StuckAreHeld(b.held, 0, k);
    }
  }

  lemma {:induction false} OutOfRangeIsUp(ts: seq<Transition>, key: int)
    requires KeysOk(ts) && !InRange(key)
    ensures !Down(ts, key)
  {
    if ts != [] {
      OutOfRangeIsUp(ts[..|ts| - 1], key);
    }
  }

  lemma KeptHoldsNoZero(b: Board)
    requires Kept(b)
    ensures Sized(b) && !b.held[0]
  {
    hide Log, Down, Alternates;
    OutOfRangeIsUp(Log(b), 0);
  }

  lemma SetInjectModeKeeps(b: Board, mode: Mode)
    requires Kept(b)
    ensures var r := SetInjectMode(b, mode);
      && Kept(r) && r.mode == mode && r.backend == b.backend
      && (b.mode != mode ==> (forall k :: 0 <= k < KEYS ==> !r.held[k]) && (Ready(b) ==> r.pending == []))
      && (b.mode == mode ==> r == b)
  {
    hide ReleaseAll, Flatten, Down, Alternates, Kept;
    KeptSized(b);
    if b.mode != mode {
      ReleaseAllReleases(b);
      ModeIsNotHistory(ReleaseAll(b), mode);
    }
  }

  lemma ModeIsNotHistory(b: Board, mode: Mode)
    requires Kept(b)
    ensures Kept(b.(mode := mode)) && Log(b.(mode := mode)) == Log(b)
  {
    hide Flatten, Down, Alternates;
  }

  // ---- Nothing queued is ever lost or taken back: the history only grows at its end

  lemma QueueGrows(b: Board, key: int, down: bool)
    requires |b.held| == KEYS
    ensures Log(b) <= Log(Queue(b, key, down))
  {
    hide Log, Queue;
    QueueLogs(b, key, down);
  }

  lemma {:induction false} ReleaseEachGrows(b: Board, keys: seq<int>)
    requires |b.held| == KEYS
    ensures Log(b) <= Log(ReleaseEach(b, keys))
    decreases keys
  {
    hide Log, Queue;
    if keys != [] {
      QueueGrows(b, keys[0], false);
      ReleaseEachGrows(Queue(b, keys[0], false), keys[1..]);
    }
  }

  lemma SetInjectModeGrows(b: Board, mode: Mode)
    requires Sized(b)
    ensures Log(b) <= Log(ReleaseAll(b)) && Log(b) <= Log(SetInjectMode(b, mode))
  {
    hide Flatten, Flush, ReleaseEach, StuckFrom;
    var keys := StuckFrom(b.held, 0);
    ReleaseEachSized(b, keys);
    ReleaseEachGrows(b, keys);
    FlushMoves(ReleaseEach(b, keys));
  }
}
