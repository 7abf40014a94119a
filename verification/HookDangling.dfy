// Exactly when removeAll() leaves a hook jumping into a trampoline that is gone: any hooks, overlapping or not, and
// whichever writes land.

module HookDangling {
  import opened Bytes
  import opened Wrappers
  import opened Memory
  import opened InlineHook
  import opened HookLifecycle

  // ---- One removal

  lemma WriteCodeIs(mem: Memory, destination: int, source: seq<byte>, lands: bool)
    requires Mapped(mem, destination, |source|)
    ensures WriteCode(mem, destination, source, lands).0 == if lands then Write(mem, destination, source) else mem
    ensures WriteCode(mem, destination, source, lands).1 <==> lands || Holds(mem, destination, source)
  {
    hide Write;
    var after := if lands then Write(mem, destination, source) else mem;
    HoldsRead(after, destination, source);
    if lands {
      assert Holds(after, destination, source);
    }
  }

  // The game's memory is `base`, where every target is and no block.
  ghost predicate Placed(record: Record, base: set<int>) {
    (forall a :: record.Covers(a) ==> a in base) && (forall a :: record.Holds(a) ==> a !in base)
  }

  // What removing one hook does: its saved bytes are back if the write lands; its block is gone if they are back.
  lemma RemoveStep(mem: Memory, record: Record, lands: bool, base: set<int>)
    requires base <= mem.Keys && Placed(record, base)
    ensures var next := Remove(mem, record, lands);
      var restored := lands || Holds(mem, record.target, record.originalBytes);
      && base <= next.Keys
      && (forall a :: a in next <==> a in mem && !(restored && record.Holds(a)))
      && (forall a :: a in base ==> next[a] == if lands && record.Covers(a) then record.Saved(a) else mem[a])
      && (!restored ==> next == mem)
  {
    hide Write, Unmap, WriteCode, Record.Holds;
    assert Mapped(mem, record.target, |record.originalBytes|) by {
      forall a | record.target <= a < record.target + |record.originalBytes|
        ensures a in mem
      {
        assert record.Covers(a);
      }
    }
    WriteCodeIs(mem, record.target, record.originalBytes, lands);
    UnmapsBlock(if lands then Write(mem, record.target, record.originalBytes) else mem, record);
  }

  lemma UnmapsBlock(mem: Memory, record: Record)
    ensures var next := Unmap(mem, record.trampoline, record.trampolineSize);
      (forall a :: a in next <==> a in mem && !record.Holds(a)) && (forall a :: a in next ==> next[a] == mem[a])
  {
    hide Unmap;
  }

  // ---- A run of removals

  ghost predicate AllPlaced(records: seq<Record>, base: set<int>) {
    forall i :: 0 <= i < |records| ==> Placed(records[i], base)
  }

  // The byte at `a` once the records were restored in order: the last write that lands and covers it wins.
  function LastLanded(records: seq<Record>, lands: seq<bool>, a: int, otherwise: byte): byte
    requires |lands| == |records|
    decreases records
  {
    if records == [] then otherwise
    else
      LastLanded(records[1..], lands[1..], a,
                 if lands[0] && records[0].Covers(a) then records[0].Saved(a) else otherwise)
  }

  lemma {:induction false} RemoveAllBytes(mem: Memory, records: seq<Record>, lands: seq<bool>, base: set<int>)
    requires |lands| == |records| && base <= mem.Keys && AllPlaced(records, base)
    ensures var left := RemoveAll(mem, records, lands);
      && base <= left.Keys <= mem.Keys
      && forall a :: a in base ==> left[a] == LastLanded(records, lands, a, mem[a])
    decreases records
  {
    hide Remove, Placed, Record.Covers, Record.Saved, Record.Holds;
    if records != [] {
      var next := Remove(mem, records[0], lands[0]);
      RemoveStep(mem, records[0], lands[0], base);
      forall a | a in next
        ensures a in mem
      {
      }
      assert AllPlaced(records[1..], base);
      RemoveAllBytes(next, records[1..], lands[1..], base);
    }
  }

  // An address in no block of theirs stays mapped.
  lemma {:induction false} RemoveAllKeeps(mem: Memory, records: seq<Record>, lands: seq<bool>, base: set<int>, a: int)
    requires |lands| == |records| && base <= mem.Keys && AllPlaced(records, base)
    requires a in mem && forall i :: 0 <= i < |records| ==> !records[i].Holds(a)
    ensures a in RemoveAll(mem, records, lands)
    decreases records
  {
    hide Remove, Placed, Record.Covers, Record.Saved, Record.Holds;
    if records != [] {
      RemoveStep(mem, records[0], lands[0], base);
      assert !records[0].Holds(a);
      assert AllPlaced(records[1..], base);
      RemoveAllKeeps(Remove(mem, records[0], lands[0]), records[1..], lands[1..], base, a);
    }
  }

  lemma {:induction false} RemoveAllSplit(mem: Memory, records: seq<Record>, lands: seq<bool>, k: nat)
    requires |lands| == |records| && k < |records|
    ensures var mid := RemoveAll(mem, records[..k], lands[..k]);
      RemoveAll(mem, records, lands) == RemoveAll(Remove(mid, records[k], lands[k]), records[k + 1..], lands[k + 1..])
    decreases records
  {
    hide Remove;
    if k > 0 {
      RemoveAllSplit(Remove(mem, records[0], lands[0]), records[1..], lands[1..], k - 1);
      assert records[1..][..k - 1] == records[..k][1..] && lands[1..][..k - 1] == lands[..k][1..];
      assert records[1..][k..] == records[k + 1..] && lands[1..][k..] == lands[k + 1..];
    }
  }

  // ---- Dangling

  // When its turn comes the hook's bytes are put back, or they are back already, so its block goes.
  ghost predicate Restored(mem: Memory, records: seq<Record>, lands: seq<bool>, k: nat)
    requires |lands| == |records| && k < |records|
  {
    lands[k] || forall a :: records[k].Covers(a) ==>
      a in mem && LastLanded(records[..k], lands[..k], a, mem[a]) == records[k].Saved(a)
  }

  // The hook was restored, and some later write that lands leaves another byte over it.
  ghost predicate Overwritten(mem: Memory, records: seq<Record>, lands: seq<bool>, k: nat)
    requires |lands| == |records| && k < |records|
  {
    && Restored(mem, records, lands, k)
    && exists a :: records[k].Covers(a)
         && LastLanded(records[k + 1..], lands[k + 1..], a, records[k].Saved(a)) != records[k].Saved(a)
  }

  lemma PlacedInHistory(mems: seq<Memory>, records: seq<Record>)
    requires History(mems, records) && TargetsInside(records, mems[0].Keys)
    ensures AllPlaced(records, mems[0].Keys) && mems[0].Keys <= mems[|records|].Keys
  {
    hide Record.Covers, Record.Holds, Hooked;
    HistoryGrows(mems, records, 0, |records|);
    forall i | 0 <= i < |records|
      ensures Placed(records[i], mems[0].Keys)
    {
      forall a | records[i].Holds(a)
        ensures a !in mems[0]
      {
        BlockIsNoTarget(mems, records, i, a);
      }
    }
  }

  lemma OtherBlocks(mems: seq<Memory>, records: seq<Record>, k: nat, a: int)
    requires History(mems, records) && k < |records| && records[k].Holds(a)
    ensures a in mems[|records|] && forall i :: 0 <= i < |records| && i != k ==> !records[i].Holds(a)
  {
    hide Record.Holds, Hooked;
    BlockIsNoTarget(mems, records, k, a);
    forall i | 0 <= i < |records| && i != k && records[i].Holds(a)
      ensures false
    {
      if i < k {
        BlocksAreFresh(mems, records, i, k, a);
      } else {
        BlocksAreFresh(mems, records, k, i, a);
      }
    }
  }

  // Before its turn the block of hook `k` is still there.
  lemma BlockUntilTurn(mems: seq<Memory>, records: seq<Record>, lands: seq<bool>, k: nat)
    requires History(mems, records) && TargetsInside(records, mems[0].Keys) && |lands| == |records| && k < |records|
    ensures forall a :: records[k].Holds(a) ==> a in RemoveAll(mems[|records|], records[..k], lands[..k])
  {
    hide RemoveAll, Record.Holds, Placed, Hooked;
    PlacedInHistory(mems, records);
    forall a | records[k].Holds(a)
      ensures a in RemoveAll(mems[|records|], records[..k], lands[..k])
    {
      OtherBlocks(mems, records, k, a);
      RemoveAllKeeps(mems[|records|], records[..k], lands[..k], mems[0].Keys, a);
    }
  }

  // From its turn on: its block, if it was not unmapped, stays.
  lemma BlockAfterTurn(mems: seq<Memory>, records: seq<Record>, lands: seq<bool>, k: nat, next: Memory)
    requires History(mems, records) && TargetsInside(records, mems[0].Keys) && |lands| == |records| && k < |records|
    requires mems[0].Keys <= next.Keys && forall a :: records[k].Holds(a) ==> a in next
    ensures forall a :: records[k].Holds(a) ==> a in RemoveAll(next, records[k + 1..], lands[k + 1..])
  {
    hide RemoveAll, Record.Holds, Placed, Hooked;
    PlacedInHistory(mems, records);
    forall a | records[k].Holds(a)
      ensures a in RemoveAll(next, records[k + 1..], lands[k + 1..])
    {
      OtherBlocks(mems, records, k, a);
      RemoveAllKeeps(next, records[k + 1..], lands[k + 1..], mems[0].Keys, a);
    }
  }

  lemma RestoredHolds(record: Record, mem: Memory, next: Memory, lands: bool, base: set<int>)
    requires base <= mem.Keys && Placed(record, base) && next == Remove(mem, record, lands)
    requires lands || Holds(mem, record.target, record.originalBytes)
    ensures base <= next.Keys && forall a :: record.Covers(a) ==> a in base && next[a] == record.Saved(a)
  {
    hide Remove;
    RemoveStep(mem, record, lands, base);
  }

  lemma HoldsByBytes(mem: Memory, record: Record, base: set<int>)
    requires base <= mem.Keys && Placed(record, base)
    ensures Holds(mem, record.target, record.originalBytes)
       <==> forall a :: record.Covers(a) ==> a in mem && mem[a] == record.Saved(a)
  {
    if forall a :: record.Covers(a) ==> a in mem && mem[a] == record.Saved(a) {
      forall a | record.target <= a < record.target + |record.originalBytes|
        ensures a in mem && mem[a] == record.originalBytes[a - record.target]
      {
        assert record.Covers(a);
      }
    }
    if Holds(mem, record.target, record.originalBytes) {
      forall a | record.Covers(a)
        ensures mem[a] == record.Saved(a)
      {
      }
    }
  }

  lemma CoveredInBase(record: Record, base: set<int>)
    requires Placed(record, base)
    ensures forall a :: record.Covers(a) ==> a in base
  {}

  lemma BlockIsGone(mem: Memory, record: Record, lands: bool, base: set<int>)
    requires base <= mem.Keys && Placed(record, base) && record.trampolineSize > 0
    requires lands || Holds(mem, record.target, record.originalBytes)
    ensures record.Holds(record.trampoline) && record.trampoline !in Remove(mem, record, lands)
  {
    hide Remove, Holds;
    RemoveStep(mem, record, lands, base);
  }

  // After removeAll() a hook is unsafe, its target jumping into a block that is gone, exactly when it was overwritten.
  lemma DanglesExactly(mems: seq<Memory>, records: seq<Record>, lands: seq<bool>, k: nat)
    requires History(mems, records) && TargetsInside(records, mems[0].Keys)
    requires |lands| == |records| && k < |records|
    ensures !Safe(RemoveAll(mems[|records|], records, lands), records[k])
       <==> Overwritten(mems[|records|], records, lands, k)
  {
    hide RemoveAll, Remove, Holds, Placed, Record.Covers, Record.Holds, Record.Saved, LastLanded, Hooked;
    var base, now, record := mems[0].Keys, mems[|records|], records[k];
    var mid := RemoveAll(now, records[..k], lands[..k]);
    var next := Remove(mid, record, lands[k]);
    var left := RemoveAll(next, records[k + 1..], lands[k + 1..]);
    PlacedInHistory(mems, records);
    assert AllPlaced(records[..k], base) && AllPlaced(records[k + 1..], base) && Placed(record, base);
    RemoveAllSplit(now, records, lands, k);
    RemoveAllBytes(now, records[..k], lands[..k], base);
    RemoveStep(mid, record, lands[k], base);
    RemoveAllBytes(next, records[k + 1..], lands[k + 1..], base);
    BlockUntilTurn(mems, records, lands, k);
    HoldsByBytes(mid, record, base);
    CoveredInBase(record, base);
    if lands[k] || Holds(mid, record.target, record.originalBytes) {
      BlockNotEmpty(mems, records, k);
      BlockIsGone(mid, record, lands[k], base);
      RestoredHolds(record, mid, next, lands[k], base);
      HoldsByBytes(left, record, base);
      assert record.trampoline !in left;
    } else {
      BlockAfterTurn(mems, records, lands, k, next);
    }
  }

  lemma BlockNotEmpty(mems: seq<Memory>, records: seq<Record>, k: nat)
    requires History(mems, records) && k < |records|
    ensures records[k].trampolineSize > 0
  {
    assert Hooked(mems[k], records[k], mems[k + 1]);
  }
}
