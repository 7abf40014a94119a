// Two things src/tick.cpp and src/keyboard.cpp leave to the interleaving of threads: the timer handing over to the game
// thread, and flushes that deliver outside the lock.

module TickSource {
  import opened Keyboard

  // ---- The timer loop, step by step, against the rest of the program setting its flags

  // The two flags are read one after the other: another thread may run in between.
  datatype Place = AtCheck | AtSource | AtPump | AtWait | Finished

  datatype Timer = Timer(place: Place, running: bool, gameThreadSource: bool, pumps: nat)

  datatype Turn =
    | TimerTurn              // the timer thread takes its next step
    | UseGameThread(on: bool)
    | StopRunning

  function Take(t: Timer, turn: Turn): Timer {
    match turn
    case UseGameThread(on) => t.(gameThreadSource := on)
    case StopRunning => t.(running := false)
    case TimerTurn =>
      match t.place
      case AtCheck => t.(place := if t.running then AtSource else Finished)
      case AtSource => t.(place := if t.gameThreadSource then AtWait else AtPump)
      case AtPump => t.(place := AtWait, pumps := t.pumps + 1)
      case AtWait => t.(place := AtCheck)
      case Finished => t
  }

  function TakeAll(t: Timer, turns: seq<Turn>): Timer
    decreases turns
  {
    if turns == [] then t else TakeAll(Take(t, turns[0]), turns[1..])
  }

  predicate HandedOver(turns: seq<Turn>) {
    forall i :: 0 <= i < |turns| ==> turns[i] != UseGameThread(false)
  }

  // Once the game thread has taken over for good, the timer completes at most the pump it was in the middle of.
  lemma {:induction false} AtMostOneMorePump(t: Timer, turns: seq<Turn>)
    requires t.gameThreadSource && HandedOver(turns)
    ensures var u := TakeAll(t, turns); t.pumps <= u.pumps <= t.pumps + if t.place.AtPump? then 1 else 0
    decreases turns
  {
    if turns != [] {
      AtMostOneMorePump(Take(t, turns[0]), turns[1..]);
    }
  }

  // Once it has been told to stop, it completes at most one: the one it was in the middle of, or was about to decide on.
  lemma {:induction false} AtMostOnePumpAfterStop(t: Timer, turns: seq<Turn>)
    requires !t.running
    ensures var u := TakeAll(t, turns);
      t.pumps <= u.pumps <= t.pumps + if t.place.AtPump? || t.place.AtSource? then 1 else 0
    decreases turns
  {
    if turns != [] {
      AtMostOnePumpAfterStop(Take(t, turns[0]), turns[1..]);
    }
  }

  // The one it was about to decide on can happen: a stop between the two reads does not prevent it.
  lemma StopBetweenReadsStillPumps(t: Timer)
    requires t.place == AtCheck && t.running && !t.gameThreadSource
    ensures var u := TakeAll(t, [TimerTurn, StopRunning, TimerTurn, TimerTurn]); !u.running && u.pumps == t.pumps + 1
  {
    var t1 := Take(t, TimerTurn);
    var t2 := Take(t1, StopRunning);
    var t3 := Take(t2, TimerTurn);
    assert TakeAll(t, [TimerTurn, StopRunning, TimerTurn, TimerTurn])
        == TakeAll(t1, [StopRunning, TimerTurn, TimerTurn]);
    assert TakeAll(t1, [StopRunning, TimerTurn, TimerTurn]) == TakeAll(t2, [TimerTurn, TimerTurn]);
    assert TakeAll(t2, [TimerTurn, TimerTurn]) == TakeAll(t3, [TimerTurn]);
    assert TakeAll(t3, [TimerTurn]) == TakeAll(Take(t3, TimerTurn), []);
  }

  function TimerTurns(turns: seq<Turn>): nat {
    if turns == [] then 0 else (if turns[0].TimerTurn? then 1 else 0) + TimerTurns(turns[1..])
  }

  function StepsToFinish(place: Place): nat {
    match place
    case AtSource => 4
    case AtPump => 3
    case AtWait => 2
    case AtCheck => 1
    case Finished => 0
  }

  // A stopped timer thread is gone after at most four of its own steps, so the join in stop() returns.
  lemma {:induction false} StoppedTimerFinishes(t: Timer, turns: seq<Turn>)
    requires !t.running && TimerTurns(turns) >= StepsToFinish(t.place)
    ensures TakeAll(t, turns).place == Finished
    decreases turns
  {
    if t.place == Finished {
      StaysFinished(t, turns);
    } else if turns != [] {
      StoppedTimerFinishes(Take(t, turns[0]), turns[1..]);
    }
  }

  lemma {:induction false} StaysFinished(t: Timer, turns: seq<Turn>)
    requires t.place == Finished
    ensures TakeAll(t, turns).place == Finished
    decreases turns
  {
    if turns != [] {
      StaysFinished(Take(t, turns[0]), turns[1..]);
    }
  }

  // ---- A flush takes the queue under the lock and delivers after leaving it

  // A transition with its place in the order in which they were queued.
  datatype Ticket = Ticket(place: nat, t: Transition)

  datatype Lane = Lane(pending: seq<Ticket>, first: seq<Ticket>, second: seq<Ticket>, delivered: seq<Ticket>, next: nat)

  const EMPTY := Lane([], [], [], [], 0)

  datatype Move =
    | Add(t: Transition)
    | TakeFirst | TakeSecond       // a flusher swaps the queue out
    | EmitFirst | EmitSecond       // and delivers what it took

  // A flusher takes only when it has delivered what it took before.
  predicate CanMove(l: Lane, m: Move) {
    (m.TakeFirst? ==> l.first == []) && (m.TakeSecond? ==> l.second == [])
  }

  function Make(l: Lane, m: Move): Lane {
    match m
    case Add(t) => l.(pending := l.pending + [Ticket(l.next, t)], next := l.next + 1)
    case TakeFirst => l.(pending := [], first := l.pending)
    case TakeSecond => l.(pending := [], second := l.pending)
    case EmitFirst => l.(first := [], delivered := l.delivered + l.first)
    case EmitSecond => l.(second := [], delivered := l.delivered + l.second)
  }

  function MakeAll(l: Lane, moves: seq<Move>): Lane
    decreases moves
  {
    if moves == [] then l else MakeAll(Make(l, moves[0]), moves[1..])
  }

  predicate CanMakeAll(l: Lane, moves: seq<Move>)
    decreases moves
  {
    moves == [] || (CanMove(l, moves[0]) && CanMakeAll(Make(l, moves[0]), moves[1..]))
  }

  predicate InOrder(tickets: seq<Ticket>) {
    forall i :: 0 <= i < |tickets| ==> tickets[i].place == i
  }

  // A batch is delivered while the other flusher still carries one that was taken earlier.
  predicate Overtakes(l: Lane, m: Move) {
    && l.first != [] && l.second != []
    && (if m.EmitFirst? then l.second[0].place < l.first[0].place
        else m.EmitSecond? && l.first[0].place < l.second[0].place)
  }

  predicate SomeOvertakes(l: Lane, moves: seq<Move>)
    decreases moves
  {
    moves != [] && (Overtakes(l, moves[0]) || SomeOvertakes(Make(l, moves[0]), moves[1..]))
  }

  predicate FirstIsOlder(l: Lane) {
    l.second == [] || (l.first != [] && l.first[0].place < l.second[0].place)
  }

  // Everything queued so far, in the order in which it was taken.
  function Line(l: Lane): seq<Ticket> {
    if FirstIsOlder(l) then l.delivered + (l.first + (l.second + l.pending))
    else l.delivered + (l.second + (l.first + l.pending))
  }

  predicate Lined(l: Lane) {
    InOrder(Line(l)) && |Line(l)| == l.next
  }

  lemma AddLines(l: Lane, t: Transition)
    requires Lined(l)
    ensures Lined(Make(l, Add(t)))
  {
    assert Line(Make(l, Add(t))) == Line(l) + [Ticket(l.next, t)];
  }

  lemma TakeLines(l: Lane, m: Move)
    requires Lined(l) && CanMove(l, m) && (m.TakeFirst? || m.TakeSecond?)
    ensures Lined(Make(l, m))
  {
    hide InOrder;
    TakenIsNewer(l);
    assert Line(Make(l, m)) == Line(l);
  }

  // What is pending was queued after whatever a flusher carries.
  lemma TakenIsNewer(l: Lane)
    requires Lined(l)
    ensures l.pending != [] && l.second != [] && l.first == [] ==> l.second[0].place < l.pending[0].place
    ensures l.pending != [] && l.first != [] && l.second == [] ==> l.first[0].place < l.pending[0].place
  {
    var d := |l.delivered|;
    if l.pending != [] && l.second != [] && l.first == [] {
      assert Line(l)[d] == l.second[0] && Line(l)[d + |l.second|] == l.pending[0];
    }
    if l.pending != [] && l.first != [] && l.second == [] {
      assert Line(l)[d] == l.first[0] && Line(l)[d + |l.first|] == l.pending[0];
    }
  }

  lemma EmitLines(l: Lane, m: Move)
    requires Lined(l) && !Overtakes(l, m) && (m.EmitFirst? || m.EmitSecond?)
    ensures Lined(Make(l, m))
  {
    CarriedDiffer(l);
    hide InOrder;
    assert Line(Make(l, m)) == Line(l);
  }

  lemma CarriedDiffer(l: Lane)
    requires Lined(l)
    ensures l.first != [] && l.second != [] ==> l.first[0].place != l.second[0].place
  {
    var d := |l.delivered|;
    if l.first != [] && l.second != [] {
      if FirstIsOlder(l) {
        assert Line(l)[d] == l.first[0] && Line(l)[d + |l.first|] == l.second[0];
      } else {
        assert Line(l)[d] == l.second[0] && Line(l)[d + |l.second|] == l.first[0];
      }
    }
  }

  // Overtaking puts a ticket where it does not belong.
  lemma OvertakingBreaks(l: Lane, m: Move)
    requires Lined(l) && Overtakes(l, m)
    ensures !InOrder(Make(l, m).delivered)
  {
    var d := |l.delivered|;
    if m.EmitFirst? {
      assert Line(l)[d + |l.second|] == l.first[0];
      assert Make(l, m).delivered[d] == l.first[0];
    } else {
      assert Line(l)[d + |l.first|] == l.second[0];
      assert Make(l, m).delivered[d] == l.second[0];
    }
  }

  lemma LinedDelivers(l: Lane)
    requires Lined(l)
    ensures InOrder(l.delivered)
  {
    forall i | 0 <= i < |l.delivered|
      ensures l.delivered[i].place == i
    {
      assert Line(l)[i] == l.delivered[i];
    }
  }

  lemma {:induction false} DeliveredStays(l: Lane, moves: seq<Move>)
    ensures l.delivered <= MakeAll(l, moves).delivered
    decreases moves
  {
    if moves != [] {
      DeliveredStays(Make(l, moves[0]), moves[1..]);
    }
  }

  lemma BrokenStays(a: seq<Ticket>, b: seq<Ticket>)
    requires a <= b && InOrder(b)
    ensures InOrder(a)
  {
  }

  lemma {:induction false} OrderFromLined(l: Lane, moves: seq<Move>)
    requires Lined(l) && CanMakeAll(l, moves)
    ensures InOrder(MakeAll(l, moves).delivered) <==> !SomeOvertakes(l, moves)
    decreases moves
  {
    hide Lined, InOrder, Make, Overtakes, CanMove;
    if moves == [] {
      LinedDelivers(l);
    } else if Overtakes(l, moves[0]) {
      OvertakingBreaks(l, moves[0]);
      DeliveredStays(Make(l, moves[0]), moves[1..]);
      if InOrder(MakeAll(l, moves).delivered) {
        BrokenStays(Make(l, moves[0]).delivered, MakeAll(l, moves).delivered);
      }
    } else {
      MoveLines(l, moves[0]);
      OrderFromLined(Make(l, moves[0]), moves[1..]);
    }
  }

  lemma MoveLines(l: Lane, m: Move)
    requires Lined(l) && CanMove(l, m) && !Overtakes(l, m)
    ensures Lined(Make(l, m))
  {
    hide Lined, Make, Overtakes, CanMove;
    match m {
      case Add(t) => AddLines(l, t);
      case TakeFirst => TakeLines(l, m);
      case TakeSecond => TakeLines(l, m);
      case EmitFirst => EmitLines(l, m);
      case EmitSecond => EmitLines(l, m);
    }
  }

  // Two flushers deliver in the order of the queue exactly when no batch is delivered while an earlier one is still carried.
  // Tickets tell equal transitions apart, so batches that happen to read the same count as different.
  lemma OrderKeptExactly(moves: seq<Move>)
    requires CanMakeAll(EMPTY, moves)
    ensures InOrder(MakeAll(EMPTY, moves).delivered) <==> !SomeOvertakes(EMPTY, moves)
  {
    hide MakeAll, SomeOvertakes, CanMakeAll;
    OrderFromLined(EMPTY, moves);
  }

  // One flusher at a time: nobody takes while the other still carries a batch.
  predicate OneAtATime(l: Lane, moves: seq<Move>)
    decreases moves
  {
    moves == [] || (CanMove(l, moves[0])
                    && (moves[0].TakeFirst? ==> l.second == []) && (moves[0].TakeSecond? ==> l.first == [])
                    && OneAtATime(Make(l, moves[0]), moves[1..]))
  }

  function Added(moves: seq<Move>, next: nat): seq<Ticket>
    decreases moves
  {
    if moves == [] then []
    else if moves[0].Add? then [Ticket(next, moves[0].t)] + Added(moves[1..], next + 1)
    else Added(moves[1..], next)
  }

  function Queued(l: Lane): seq<Ticket> {
    l.delivered + l.first + l.second + l.pending
  }

  predicate OneCarries(l: Lane) {
    l.first == [] || l.second == []
  }

  lemma MoveKeepsOrder(l: Lane, m: Move)
    requires OneCarries(l) && CanMove(l, m) && (m.TakeFirst? ==> l.second == []) && (m.TakeSecond? ==> l.first == [])
    ensures OneCarries(Make(l, m)) && Queued(Make(l, m)) == Queued(l) + if m.Add? then [Ticket(l.next, m.t)] else []
  {
    assert Queued(l) + [] == Queued(l);
    match m {
      case Add(t) =>
        assert Queued(l) + [Ticket(l.next, t)] == l.delivered + l.first + l.second + (l.pending + [Ticket(l.next, t)]);
      case EmitSecond =>
        if l.second != [] {
          assert l.delivered + l.first == l.delivered;
        }
      case _ =>
    }
  }

  // With one flusher at a time, transitions are delivered in the order they were queued, none lost and none twice.
  lemma {:induction false} OneFlusherKeepsOrder(l: Lane, moves: seq<Move>)
    requires OneCarries(l) && OneAtATime(l, moves)
    ensures Queued(MakeAll(l, moves)) == Queued(l) + Added(moves, l.next)
    decreases moves
  {
    hide Queued, OneCarries;
    if moves == [] {
      assert Queued(l) + [] == Queued(l);
    } else {
      var added := if moves[0].Add? then [Ticket(l.next, moves[0].t)] else [];
      MoveKeepsOrder(l, moves[0]);
      OneFlusherKeepsOrder(Make(l, moves[0]), moves[1..]);
      assert (Queued(l) + added) + Added(moves[1..], Make(l, moves[0]).next)
          == Queued(l) + (added + Added(moves[1..], Make(l, moves[0]).next));
      assert [] + Added(moves[1..], l.next) == Added(moves[1..], l.next);
    }
  }

  // What overtaking does to a key: its release is delivered before its press, and the key is left down.
  lemma TwoFlushersReorder(key: int)
    ensures var down, up := Transition(key, true), Transition(key, false);
      var both := Make(Make(Make(Make(EMPTY, Add(down)), TakeFirst), Add(up)), TakeSecond);
      var l := Make(Make(both, EmitSecond), EmitFirst);
      && Overtakes(both, EmitSecond) && l.delivered == [Ticket(1, up), Ticket(0, down)]
      && !Down([down, up], key) && Down([up, down], key)
  {
    var down, up := Transition(key, true), Transition(key, false);
    assert [] + [Ticket(0, down)] == [Ticket(0, down)] && [] + [Ticket(1, up)] == [Ticket(1, up)];
    assert [Ticket(1, up)] + [Ticket(0, down)] == [Ticket(1, up), Ticket(0, down)];
    DownAppend([down], up, key);
    DownAppend([up], down, key);
    assert [down] + [up] == [down, up] && [up] + [down] == [up, down];
  }
}
