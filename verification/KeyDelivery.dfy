// What the game sees on the direct backend, across the three inject modes, and when a batch swallows a key press.

module KeyDelivery {
  import opened Keyboard

  // The transitions an event queue carries.
  function Events(inputs: seq<InputEvent>): (ts: seq<Transition>)
    ensures |ts| == |inputs|
  {
    if inputs == [] then []
    else Events(inputs[..|inputs| - 1]) + [Transition(inputs[|inputs| - 1].key, inputs[|inputs| - 1].down)]
  }

  lemma EventsAppend(inputs: seq<InputEvent>, e: InputEvent)
    ensures Events(inputs + [e]) == Events(inputs) + [Transition(e.key, e.down)]
  {
    assert (inputs + [e])[..|inputs|] == inputs;
  }

  // The state array and the event queue, each where the mode feeds it, show what has been handed over.
  ghost predicate Shows(g: Game, mode: Mode, sent: seq<Transition>) {
    && |g.states| == KEYS
    && (forall k :: 0 <= k < KEYS ==> g.states[k] == Level(mode != EventsOnly && Down(sent, k)))
    && (forall k :: 0 <= k < KEYS ==> (Down(Events(g.inputs), k) <==> mode != StatesOnly && Down(sent, k)))
    && Alternates(Events(g.inputs))
  }

  lemma DeliverOneEvents(g: Game, mode: Mode, legacy: bool, t: Transition)
    requires |g.states| == KEYS && InRange(t.key)
    ensures Events(DeliverOne(g, mode, legacy, t).inputs) == Events(g.inputs) + if mode == StatesOnly then [] else [t]
  {
    hide Events;
    var shown := if mode == EventsOnly then g else g.(states := g.states[t.key := Level(t.down)]);
    EventsAppend(shown.inputs, EventOf(legacy, shown, t));
    assert Events(g.inputs) + [] == Events(g.inputs);
  }

  lemma DeliverOneShows(g: Game, mode: Mode, legacy: bool, sent: seq<Transition>, t: Transition)
    requires Shows(g, mode, sent) && InRange(t.key) && Alternates(sent + [t])
    ensures Shows(DeliverOne(g, mode, legacy, t), mode, sent + [t])
  {
    hide Down, Alternates, Events, EventOf;
    var r := DeliverOne(g, mode, legacy, t);
    DeliverOneEvents(g, mode, legacy, t);
    AlternatesAppend(sent, t);
    AlternatesAppend(Events(g.inputs), t);
    forall k | 0 <= k < KEYS
      ensures r.states[k] == Level(mode != EventsOnly && Down(sent + [t], k))
      ensures Down(Events(r.inputs), k) <==> mode != StatesOnly && Down(sent + [t], k)
    {
      DownAppend(sent, t, k);
      DownAppend(Events(g.inputs), t, k);
    }
  }

  lemma {:induction false} AlternatesPrefix(a: seq<Transition>, b: seq<Transition>)
    requires Alternates(a + b)
    ensures Alternates(a)
  {
    if b != [] {
      var n := |b| - 1;
      assert a + b == (a + b[..n]) + [b[n]];
      AlternatesAppend(a + b[..n], b[n]);
      AlternatesPrefix(a, b[..n]);
    } else {
      assert a + b == a;
    }
  }

  lemma {:induction false} DeliverShows(g: Game, mode: Mode, legacy: bool, sent: seq<Transition>, batch: seq<Transition>)
    requires Shows(g, mode, sent) && Alternates(sent + batch) && KeysOk(batch)
    ensures Shows(Deliver(g, mode, legacy, batch), mode, sent + batch)
  {
    hide Shows, Alternates, DeliverOne;
    assert |g.states| == KEYS by { ShowsSized(g, mode, sent); }
    if batch == [] {
      assert sent + batch == sent;
    } else {
      var n := |batch| - 1;
      assert sent + batch == (sent + batch[..n]) + [batch[n]];
      AlternatesPrefix(sent + batch[..n], [batch[n]]);
      DeliverShows(g, mode, legacy, sent, batch[..n]);
      DeliverOneShows(Deliver(g, mode, legacy, batch[..n]), mode, legacy, sent + batch[..n], batch[n]);
    }
  }

  lemma ShowsSized(g: Game, mode: Mode, sent: seq<Transition>)
    requires Shows(g, mode, sent)
    ensures |g.states| == KEYS
  {
    hide Down, Alternates, Events;
  }

  // The board of the direct backend, with nobody else writing to the game's objects.
  ghost predicate Faithful(b: Board) {
    Kept(b) && b.backend.Direct? && Shows(b.game, b.mode, Sent(b))
  }

  lemma QueueFaithful(b: Board, key: int, down: bool)
    requires Faithful(b)
    ensures Faithful(Queue(b, key, down))
  {
    hide Kept, Shows, Flatten, Queue, Log;
    KeptSized(b);
    QueueKeeps(b, key, down);
    QueueLogs(b, key, down);
  }

  lemma {:induction false} ReleaseEachFaithful(b: Board, keys: seq<int>)
    requires Faithful(b)
    ensures Faithful(ReleaseEach(b, keys))
  {
    hide Kept, Shows, Flatten, Log;
    KeptSized(b);
    ReleaseEachKeeps(b, keys);
    ReleaseEachReleases(b, keys);
  }

  lemma FlushFaithful(b: Board)
    requires Faithful(b)
    ensures Faithful(Flush(b))
  {
    hide Shows, Flatten, Down, Alternates, Deliver;
    FlushKeeps(b);
    if b.pending != [] {
      FlattenAppend(b.batches, b.pending);
      DeliverShows(b.game, b.mode, b.backend.legacy, Sent(b), b.pending);
    }
  }

  lemma ReleaseAllFaithful(b: Board)
    requires Faithful(b)
    ensures Faithful(ReleaseAll(b))
  {
    hide Faithful, Flush, ReleaseEach, StuckFrom;
    FaithfulKept(b);
    ReleaseEachFaithful(b, StuckFrom(b.held, 0));
    FaithfulKept(ReleaseEach(b, StuckFrom(b.held, 0)));
    FlushFaithful(ReleaseEach(b, StuckFrom(b.held, 0)));
  }

  lemma FaithfulKept(b: Board)
    requires Faithful(b)
    ensures Kept(b) && Sized(b) && b.backend.Direct?
  {
    hide Shows;
    KeptSized(b);
  }

  // With every key up the game sees the same in every mode, so the mode may change.
  lemma AllUpInEveryMode(b: Board, mode: Mode)
    requires Faithful(b) && b.pending == [] && forall k :: 0 <= k < KEYS ==> !b.held[k]
    ensures Faithful(b.(mode := mode))
  {
    hide Flatten, Alternates, Events, Down;
    ModeIsNotHistory(b, mode);
    assert Sent(b) + [] == Sent(b);
  }

  lemma SetInjectModeFaithful(b: Board, mode: Mode)
    requires Faithful(b)
    ensures Faithful(SetInjectMode(b, mode))
  {
    hide Faithful, ReleaseAll, Kept;
    FaithfulKept(b);
    if b.mode != mode {
      ReleaseAllFaithful(b);
      ReleaseAllReleases(b);
      AllUpInEveryMode(ReleaseAll(b), mode);
    }
  }

  // Whenever nothing is pending, the game sees exactly what is held, where the mode shows it.
  lemma GameSeesWhatIsHeld(b: Board, k: int)
    requires Faithful(b) && b.pending == [] && 0 <= k < KEYS
    ensures b.game.states[k] == 1 <==> b.mode != EventsOnly && b.held[k]
    ensures b.game.states[k] == 0 || b.game.states[k] == 1
    ensures Down(Events(b.game.inputs), k) <==> b.mode != StatesOnly && b.held[k]
    ensures Alternates(Events(b.game.inputs))
  {
    hide Flatten, Alternates, Events, Down;
    assert Sent(b) + [] == Sent(b);
  }

  // The modifier fields of the events of a batch: with the state array fed they say which modifiers are down once the
  // event's own transition is counted; without it they stay 0.
  ghost predicate EventsOf(inputs: seq<InputEvent>, from: nat, mode: Mode, sent: seq<Transition>, batch: seq<Transition>) {
    && |inputs| == from + |batch|
    && forall i: nat :: i < |batch| ==> EventIs(inputs, from, mode, sent, batch, i)
  }

  ghost predicate EventIs(inputs: seq<InputEvent>, from: nat, mode: Mode, sent: seq<Transition>, batch: seq<Transition>,
                          i: nat)
    requires |inputs| == from + |batch| && i < |batch|
  {
    ModifiersOk(inputs[from + i], mode, sent + batch[..i + 1])
  }

  ghost predicate ModifiersOk(e: InputEvent, mode: Mode, sent: seq<Transition>) {
    && e.Modern? && sent != [] && sent[|sent| - 1] == Transition(e.key, e.down)
    && e.shift == Level(mode != EventsOnly && Down(sent, 16))
    && e.ctrl == Level(mode != EventsOnly && Down(sent, 17))
    && e.alt == Level(mode != EventsOnly && Down(sent, 18))
  }

  lemma DeliverOneModifiers(g: Game, mode: Mode, sent: seq<Transition>, t: Transition)
    requires Shows(g, mode, sent) && InRange(t.key) && mode != StatesOnly && Alternates(sent + [t])
    ensures var r := DeliverOne(g, mode, false, t);
      |r.inputs| == |g.inputs| + 1 && r.inputs[..|g.inputs|] == g.inputs
      && ModifiersOk(r.inputs[|g.inputs|], mode, sent + [t])
  {
    hide Down, Alternates, Events;
    DownAppend(sent, t, 16);
    DownAppend(sent, t, 17);
    DownAppend(sent, t, 18);
  }

  lemma {:induction false} ModifiersAreCurrent(g: Game, mode: Mode, sent: seq<Transition>, batch: seq<Transition>)
    requires Shows(g, mode, sent) && Alternates(sent + batch) && KeysOk(batch) && mode != StatesOnly
    ensures |g.states| == KEYS && EventsOf(Deliver(g, mode, false, batch).inputs, |g.inputs|, mode, sent, batch)
  {
    hide Shows, Alternates, DeliverOne, ModifiersOk, Down;
    ShowsSized(g, mode, sent);
    if batch != [] {
      var n := |batch| - 1;
      var mid := Deliver(g, mode, false, batch[..n]);
      assert sent + batch == (sent + batch[..n]) + [batch[n]];
      AlternatesPrefix(sent + batch[..n], [batch[n]]);
      ModifiersAreCurrent(g, mode, sent, batch[..n]);
      DeliverShows(g, mode, false, sent, batch[..n]);
      DeliverOneModifiers(mid, mode, sent + batch[..n], batch[n]);
      var inputs := Deliver(g, mode, false, batch).inputs;
      forall i: nat | i < |batch|
        ensures EventIs(inputs, |g.inputs|, mode, sent, batch, i)
      {
        if i < n {
          assert EventIs(mid.inputs, |g.inputs|, mode, sent, batch[..n], i);
          assert batch[..n][..i + 1] == batch[..i + 1];
          assert inputs[..|mid.inputs|][|g.inputs| + i] == mid.inputs[|g.inputs| + i];
        } else {
          assert batch[..i + 1] == batch;
        }
      }
    }
  }

  // ---- Which events a batch becomes

  // The event is of the game's layout, from the game's controller, and is this transition.
  predicate EventCarries(e: InputEvent, legacy: bool, controllerId: int, t: Transition) {
    e.Legacy? == legacy && e.controllerId == controllerId && e.key == t.key && e.down == t.down
  }

  ghost predicate BatchCarried(before: seq<InputEvent>, after: seq<InputEvent>, legacy: bool, controllerId: int,
                               batch: seq<Transition>)
  {
    && |after| == |before| + |batch| && after[..|before|] == before
    && forall i :: 0 <= i < |batch| ==> EventCarries(after[|before| + i], legacy, controllerId, batch[i])
  }

  lemma CarryOne(before: seq<InputEvent>, mid: seq<InputEvent>, legacy: bool, controllerId: int, batch: seq<Transition>,
                 e: InputEvent)
    requires batch != [] && BatchCarried(before, mid, legacy, controllerId, batch[..|batch| - 1])
    requires EventCarries(e, legacy, controllerId, batch[|batch| - 1])
    ensures BatchCarried(before, mid + [e], legacy, controllerId, batch)
  {
    var n := |batch| - 1;
    forall i | 0 <= i < |batch|
      ensures EventCarries((mid + [e])[|before| + i], legacy, controllerId, batch[i])
    {
      if i < n {
        assert EventCarries(mid[|before| + i], legacy, controllerId, batch[..n][i]);
      }
    }
  }

  // A batch adds one event for each of its transitions, in order, of the layout the game has and with its controller, and
  // takes no event away; where only states are fed it adds none.
  lemma {:induction false} EventsCarryBatch(g: Game, mode: Mode, legacy: bool, batch: seq<Transition>)
    requires |g.states| == KEYS && KeysOk(batch)
    ensures var after := Deliver(g, mode, legacy, batch).inputs;
      if mode == StatesOnly then after == g.inputs else BatchCarried(g.inputs, after, legacy, g.controllerId, batch)
  {
    hide BatchCarried, EventCarries;
    if batch == [] {
      NothingCarried(g.inputs, legacy, g.controllerId);
    } else {
      var n := |batch| - 1;
      var mid := Deliver(g, mode, legacy, batch[..n]);
      EventsCarryBatch(g, mode, legacy, batch[..n]);
      if mode != StatesOnly {
        var shown := if mode == EventsOnly then mid else mid.(states := mid.states[batch[n].key := Level(batch[n].down)]);
        EventIsOf(shown, legacy, batch[n]);
        CarryOne(g.inputs, mid.inputs, legacy, g.controllerId, batch, EventOf(legacy, shown, batch[n]));
      }
    }
  }

  lemma NothingCarried(before: seq<InputEvent>, legacy: bool, controllerId: int)
    ensures BatchCarried(before, before, legacy, controllerId, [])
  {
  }

  lemma EventIsOf(g: Game, legacy: bool, t: Transition)
    requires |g.states| == KEYS
    ensures EventCarries(EventOf(legacy, g, t), legacy, g.controllerId, t)
  {
  }

  // ---- Presses and releases that cancel out in one batch

  // Some key goes down and up again within the batch.
  predicate Collapses(batch: seq<Transition>) {
    exists i, j :: 0 <= i < j < |batch| && batch[i].down && !batch[j].down && batch[i].key == batch[j].key
  }

  // Only the last transition may be a press.
  predicate PressLast(batch: seq<Transition>) {
    forall i :: 0 <= i < |batch| - 1 ==> !batch[i].down
  }

  predicate NoPress(batch: seq<Transition>) {
    forall i :: 0 <= i < |batch| ==> !batch[i].down
  }

  lemma PressLastNeverCollapses(batch: seq<Transition>)
    requires PressLast(batch)
    ensures !Collapses(batch)
  {
  }

  // Queueing a request makes the pending batch collapse exactly when it releases a key whose press is still pending.
  lemma CollapsesExactly(b: Board, key: int, down: bool)
    requires Sized(b) && !Collapses(b.pending)
    ensures Collapses(Queue(b, key, down).pending)
       <==> !down && InRange(key) && b.held[key] && Transition(key, true) in b.pending
  {
    var r := Queue(b, key, down).pending;
    if !down && InRange(key) && b.held[key] && Transition(key, true) in b.pending {
      var i :| 0 <= i < |b.pending| && b.pending[i] == Transition(key, true);
      assert r[i].down && !r[|b.pending|].down && r[i].key == r[|b.pending|].key;
    }
  }
}
