// Any number of installs followed by removeAll(): when the game's memory is put back, and why order matters.

module HookLifecycle {
  import opened Bytes
  import opened Wrappers
  import opened Arch
  import opened Memory
  import opened Trampoline
  import opened InlineHook
  import L = ArchLaws

  // What a successful install does to memory, seen from outside: a fresh block appears, and only the recorded
  // target bytes may change.
  ghost predicate Hooked(before: Memory, record: Record, after: Memory) {
    match record
    case Record(target, originalBytes, trampoline, trampolineSize) =>
      && Free(before, trampoline, trampolineSize) && trampolineSize > 0
      && Holds(before, target, originalBytes)
      && (forall a :: a in after <==> a in before || record.Holds(a))
      && (forall a :: a in before && !record.Covers(a) ==> after[a] == before[a])
  }

  lemma WritesHook(before: Memory, record: Record, trampoline: seq<byte>, patch: seq<byte>)
    requires Free(before, record.trampoline, |trampoline|) && Holds(before, record.target, record.originalBytes)
    requires |trampoline| == record.trampolineSize > 0 && |patch| == |record.originalBytes|
    ensures Hooked(before, record, Write(Write(before, record.trampoline, trampoline), record.target, patch))
  {}

  lemma InstallHooks(arch: Arch, mem: Memory, target: nat, replacement: nat, env: Environment)
    requires arch.Lawful() && Honest(mem, env) && Install(arch, mem, target, replacement, env).Some?
    ensures var (after, record) := Install(arch, mem, target, replacement, env).value; Hooked(mem, record, after)
  {
    var plan := InstallPatches(arch, mem, target, replacement, env);
    BytesSizes(arch, target, replacement, plan);
    L.JumpSized(arch, replacement);
    WritesHook(mem, Install(arch, mem, target, replacement, env).value.1, TrampolineBytes(arch, target, plan),
               PatchBytes(arch, plan.original, replacement));
  }

  lemma RemoveLanding(mem: Memory, record: Record)
    requires Mapped(mem, record.target, |record.originalBytes|)
    ensures Remove(mem, record, true)
      == Unmap(Write(mem, record.target, record.originalBytes), record.trampoline, record.trampolineSize)
  {
    var restored := Write(mem, record.target, record.originalBytes);
    assert Holds(restored, record.target, record.originalBytes);
    HoldsRead(restored, record.target, record.originalBytes);
  }

  // Removing a hook right after installing it is the identity on memory, trampoline included.
  lemma RemoveInvertsInstall(before: Memory, record: Record, after: Memory)
    requires Hooked(before, record, after)
    ensures Remove(after, record, true) == before
  {
    hide Remove, Write, Unmap, Record.Covers, Record.Holds;
    RestoredIsBefore(before, record, after);
    RemoveLanding(after, record);
  }

  lemma RestoredIsBefore(before: Memory, record: Record, after: Memory)
    requires Hooked(before, record, after)
    ensures Mapped(after, record.target, |record.originalBytes|)
    ensures Unmap(Write(after, record.target, record.originalBytes), record.trampoline, record.trampolineSize) == before
  {
    hide Write, Unmap;
    var restored := Unmap(Write(after, record.target, record.originalBytes), record.trampoline, record.trampolineSize);
    assert forall a :: a in restored <==> a in before;
    assert forall a :: a in before ==> restored[a] == before[a];
  }

  // The memories a run of installs went through; the last one is the current one.
  ghost predicate History(mems: seq<Memory>, records: seq<Record>) {
    && |mems| == |records| + 1
    && forall i :: 0 <= i < |records| ==> Hooked(mems[i], records[i], mems[i + 1])
  }

  ghost predicate Current(mems: seq<Memory>, records: seq<Record>, mem: Memory) {
    History(mems, records) && mems[|records|] == mem
  }

  lemma HistorySnoc(mems: seq<Memory>, records: seq<Record>, before: Memory, record: Record, after: Memory)
    requires Current(mems, records, before) && Hooked(before, record, after)
    ensures Current(mems + [after], records + [record], after)
  {}

  function AllLand(n: nat): (lands: seq<bool>)
    ensures |lands| == n
  {
    seq(n, _ => true)
  }

  // ---- Newest first always restores

  function RemoveNewestFirst(mem: Memory, records: seq<Record>): Memory
    decreases records
  {
    if records == [] then mem
    else RemoveNewestFirst(Remove(mem, records[|records| - 1], true), records[..|records| - 1])
  }

  lemma {:induction false} NewestFirstRestores(mems: seq<Memory>, records: seq<Record>)
    requires History(mems, records)
    ensures RemoveNewestFirst(mems[|records|], records) == mems[0]
    decreases records
  {
    if records != [] {
      var n := |records| - 1;
      RemoveInvertsInstall(mems[n], records[n], mems[n + 1]);
      NewestFirstRestores(mems[..n + 1], records[..n]);
    }
  }

  // ---- Oldest first, as removeAll() does it

  // The byte at `a` once every record was restored in order: the last record covering it wins.
  function LastSaved(records: seq<Record>, a: int, otherwise: byte): byte
    decreases records
  {
    if records == [] then otherwise
    else LastSaved(records[1..], a, if records[0].Covers(a) then records[0].Saved(a) else otherwise)
  }

  // Taking the blocks of `records` away from `keys`, one after the other, leaves `base`, where every target is.
  ghost predicate Stacked(keys: set<int>, records: seq<Record>, base: set<int>)
    decreases records
  {
    if records == [] then keys == base
    else
      && (forall a :: records[0].Covers(a) ==> a in base)
      && (forall a :: records[0].Holds(a) ==> a in keys && a !in base)
      && base <= keys
      && Stacked(Without(keys, records[0]), records[1..], base)
  }

  function Without(keys: set<int>, record: Record): (s: set<int>)
    ensures forall a :: a in s <==> a in keys && !record.Holds(a)
  {
    set a | a in keys && !record.Holds(a)
  }

  ghost predicate TargetsInside(records: seq<Record>, base: set<int>) {
    forall i, a :: 0 <= i < |records| && records[i].Covers(a) ==> a in base
  }

  lemma {:induction false} StackedSnoc(keys: set<int>, records: seq<Record>, base: set<int>, record: Record, all: set<int>)
    requires Stacked(keys, records, base) && base <= keys
    requires forall a :: record.Covers(a) ==> a in base
    requires forall a :: record.Holds(a) ==> a !in keys
    requires forall a :: a in all <==> a in keys || record.Holds(a)
    ensures Stacked(all, records + [record], base)
    decreases records
  {
    var more := records + [record];
    if records == [] {
      assert more[1..] == [];
      assert keys == base;
      assert forall a :: a in Without(all, record) <==> a in base;
    } else {
      assert more[1..] == records[1..] + [record];
      StackedSnoc(Without(keys, records[0]), records[1..], base, record, Without(all, records[0]));
    }
  }

  lemma {:induction false} HistoryStacks(mems: seq<Memory>, records: seq<Record>)
    requires History(mems, records) && TargetsInside(records, mems[0].Keys)
    ensures Stacked(mems[|records|].Keys, records, mems[0].Keys) && mems[0].Keys <= mems[|records|].Keys
    decreases records
  {
    if records != [] {
      var n := |records| - 1;
      HistoryStacks(mems[..n + 1], records[..n]);
      StackedSnoc(mems[n].Keys, records[..n], mems[0].Keys, records[n], mems[n + 1].Keys);
      assert records[..n] + [records[n]] == records;
    }
  }

  // removeAll() with every write landing: exactly the base remains, each byte as last saved.
  lemma {:induction false} RemoveAllResult(mem: Memory, records: seq<Record>, base: set<int>)
    requires Stacked(mem.Keys, records, base)
    ensures var left := RemoveAll(mem, records, AllLand(|records|));
      && left.Keys == base && base <= mem.Keys
      && forall a :: a in base ==> left[a] == LastSaved(records, a, mem[a])
    decreases records
  {
    hide Remove, Without, Record.Covers, Record.Holds, Record.Saved;
    if records != [] {
      var record := records[0];
      var next := Remove(mem, record, true);
      RemoveOne(mem, record, base);
      RemoveAllResult(next, records[1..], base);
      assert AllLand(|records|)[1..] == AllLand(|records| - 1);
    }
  }

  lemma RemoveOne(mem: Memory, record: Record, base: set<int>)
    requires base <= mem.Keys
    requires forall a :: record.Covers(a) ==> a in base
    requires forall a :: record.Holds(a) ==> a !in base
    ensures var next := Remove(mem, record, true);
      && next.Keys == Without(mem.Keys, record) && base <= next.Keys
      && forall a :: a in base ==> next[a] == if record.Covers(a) then record.Saved(a) else mem[a]
  {
    hide Remove, Write, Unmap;
    forall a | record.target <= a < record.target + |record.originalBytes| ensures a in mem {
      assert record.Covers(a);
    }
    RemoveLanding(mem, record);
    var next := Remove(mem, record, true);
    assert forall a :: a in next <==> a in Without(mem.Keys, record);
  }

  ghost predicate Covered(records: seq<Record>, a: int) {
    exists i :: 0 <= i < |records| && records[i].Covers(a)
  }

  lemma {:induction false} UncoveredUnchanged(mems: seq<Memory>, records: seq<Record>, a: int)
    requires History(mems, records) && a in mems[0] && !Covered(records, a)
    ensures a in mems[|records|] && mems[|records|][a] == mems[0][a]
    decreases records
  {
    if records != [] {
      var n := |records| - 1;
      forall i | 0 <= i < n ensures !records[..n][i].Covers(a) {
        assert !records[i].Covers(a);
      }
      UncoveredUnchanged(mems[..n + 1], records[..n], a);
      assert !records[n].Covers(a);
    }
  }

  lemma {:induction false} LastSavedCovered(records: seq<Record>, a: int, x: byte, y: byte)
    requires Covered(records, a) || x == y
    ensures LastSaved(records, a, x) == LastSaved(records, a, y)
    decreases records
  {
    if records != [] && !records[0].Covers(a) {
      assert Covered(records, a) ==> Covered(records[1..], a) by {
        if i :| 0 <= i < |records| && records[i].Covers(a) {
          assert records[1..][i - 1].Covers(a);
        }
      }
      LastSavedCovered(records[1..], a, x, y);
    }
  }

  // removeAll() restores the game exactly when, at every address, the last hook covering it saved the byte that
  // was there before any hook. Which bytes a hook saves is fixed when it is installed.
  lemma RemoveAllExact(mems: seq<Memory>, records: seq<Record>)
    requires History(mems, records) && TargetsInside(records, mems[0].Keys)
    ensures RemoveAll(mems[|records|], records, AllLand(|records|)) == mems[0] <==>
      forall a :: a in mems[0] ==> LastSaved(records, a, mems[0][a]) == mems[0][a]
  {
    var now := mems[|records|];
    var left := RemoveAll(now, records, AllLand(|records|));
    HistoryStacks(mems, records);
    RemoveAllResult(now, records, mems[0].Keys);
    forall a | a in mems[0] ensures left[a] == LastSaved(records, a, mems[0][a]) {
      if !Covered(records, a) {
        UncoveredUnchanged(mems, records, a);
      }
      LastSavedCovered(records, a, now[a], mems[0][a]);
    }
  }

  // ---- Hooks on disjoint targets

  ghost predicate DisjointTargets(records: seq<Record>) {
    forall i, j, a :: 0 <= i < j < |records| ==> !(records[i].Covers(a) && records[j].Covers(a))
  }

  // Disjoint hooks each save pristine bytes.
  lemma {:induction false} DisjointSavePristine(mems: seq<Memory>, records: seq<Record>, a: int)
    requires History(mems, records) && DisjointTargets(records) && a in mems[0]
    ensures LastSaved(records, a, mems[0][a]) == mems[0][a]
    decreases records
  {
    if records != [] {
      var n := |records| - 1;
      DisjointSavePristine(mems[..n + 1], records[..n], a);
      LastSavedSnoc(records[..n], records[n], a, mems[0][a]);
      assert records[..n] + [records[n]] == records;
      if records[n].Covers(a) {
        forall i | 0 <= i < n ensures !records[..n][i].Covers(a) {
          assert records[n].Covers(a) ==> !records[i].Covers(a);
        }
        UncoveredUnchanged(mems[..n + 1], records[..n], a);
        assert Hooked(mems[n], records[n], mems[n + 1]);
      }
    }
  }

  lemma {:induction false} LastSavedSnoc(records: seq<Record>, record: Record, a: int, otherwise: byte)
    ensures LastSaved(records + [record], a, otherwise)
      == if record.Covers(a) then record.Saved(a) else LastSaved(records, a, otherwise)
    decreases records
  {
    var more := records + [record];
    if records == [] {
      assert more[1..] == [];
    } else {
      assert more[1..] == records[1..] + [record];
      LastSavedSnoc(records[1..], record, a, if records[0].Covers(a) then records[0].Saved(a) else otherwise);
    }
  }

  // Installing any number of hooks with disjoint targets and then removing them all, every write landing, is the
  // identity on memory.
  lemma RemoveAllRestores(mems: seq<Memory>, records: seq<Record>)
    requires History(mems, records) && TargetsInside(records, mems[0].Keys) && DisjointTargets(records)
    ensures RemoveAll(mems[|records|], records, AllLand(|records|)) == mems[0]
  {
    forall a | a in mems[0] ensures LastSaved(records, a, mems[0][a]) == mems[0][a] {
      DisjointSavePristine(mems, records, a);
    }
    RemoveAllExact(mems, records);
  }

  // Disjointness is needed: hooking a target twice makes removeAll() leave the first hook's jump behind, since the
  // older record is restored first.
  lemma HookedTwiceIsNotRestored(mems: seq<Memory>, records: seq<Record>, a: int)
    requires History(mems, records) && TargetsInside(records, mems[0].Keys) && |records| == 2
    requires a in mems[0] && records[1].Covers(a) && mems[1][a] != mems[0][a]
    ensures RemoveAll(mems[2], records, AllLand(2)) != mems[0]
    ensures RemoveNewestFirst(mems[2], records) == mems[0]
  {
    LastSavedSnoc(records[..1], records[1], a, mems[0][a]);
    assert records == records[..1] + [records[1]];
    RemoveAllExact(mems, records);
    NewestFirstRestores(mems, records);
  }

  // ---- Writes that do not land

  // A hook is safe when its trampoline is still mapped or its target no longer jumps away.
  ghost predicate Safe(mem: Memory, record: Record) {
    (forall a :: record.Holds(a) ==> a in mem) || Holds(mem, record.target, record.originalBytes)
  }

  // Removing one hook unmaps its trampoline only once the original bytes are confirmed back.
  lemma RemoveLeavesSafe(mem: Memory, record: Record, lands: bool)
    requires forall a :: record.Holds(a) ==> a in mem && !record.Covers(a)
    ensures Safe(Remove(mem, record, lands), record)
    ensures !Holds(Remove(mem, record, lands), record.target, record.originalBytes)
      ==> Remove(mem, record, lands) == mem
  {
    var (after, restored) := WriteCode(mem, record.target, record.originalBytes, lands);
    HoldsRead(after, record.target, record.originalBytes);
    assert lands && Mapped(mem, record.target, |record.originalBytes|) ==> restored;
    if restored {
      HoldsOutside(after, record, record);
    }
  }

  ghost predicate Independent(record: Record, other: Record) {
    && (forall a :: record.Covers(a) ==> !other.Covers(a) && !other.Holds(a))
    && (forall a :: record.Holds(a) ==> !other.Covers(a) && !other.Holds(a))
  }

  lemma RemoveKeepsSafe(mem: Memory, record: Record, other: Record, lands: bool)
    requires Safe(mem, record) && Independent(record, other)
    ensures Safe(Remove(mem, other, lands), record)
  {
    if Holds(mem, record.target, record.originalBytes) {
      RemoveKeepsBytes(mem, record, other, lands);
    } else {
      forall a | record.Holds(a) ensures a in Remove(mem, other, lands) {
        assert !other.Holds(a);
      }
    }
  }

  lemma RemoveKeepsBytes(mem: Memory, record: Record, other: Record, lands: bool)
    requires Holds(mem, record.target, record.originalBytes) && Independent(record, other)
    ensures Holds(Remove(mem, other, lands), record.target, record.originalBytes)
  {
    hide WriteCode, Unmap, Record.Holds, Record.Covers;
    WriteKeepsBytes(mem, record, other, lands);
    HoldsOutside(WriteCode(mem, other.target, other.originalBytes, lands).0, record, other);
  }

  lemma WriteKeepsBytes(mem: Memory, record: Record, other: Record, lands: bool)
    requires Holds(mem, record.target, record.originalBytes) && Independent(record, other)
    ensures Holds(WriteCode(mem, other.target, other.originalBytes, lands).0, record.target, record.originalBytes)
  {
    hide Mapped, Read;
    var after := WriteCode(mem, other.target, other.originalBytes, lands).0;
    forall a | record.target <= a < record.target + |record.originalBytes|
      ensures a in after && after[a] == record.originalBytes[a - record.target]
    {
      assert record.Covers(a) && !other.Covers(a);
    }
  }

  lemma HoldsOutside(mem: Memory, record: Record, other: Record)
    requires Holds(mem, record.target, record.originalBytes)
    requires forall a :: record.Covers(a) ==> !other.Holds(a)
    ensures Holds(Unmap(mem, other.trampoline, other.trampolineSize), record.target, record.originalBytes)
  {
    forall a | record.target <= a < record.target + |record.originalBytes|
      ensures a in Unmap(mem, other.trampoline, other.trampolineSize)
    {
      assert record.Covers(a) && !other.Holds(a);
    }
  }

  // Whatever writes land, removeAll() leaves no hook jumping into an unmapped trampoline.
  lemma {:induction false} RemoveAllLeavesSafe(mem: Memory, records: seq<Record>, lands: seq<bool>, record: Record)
    requires |lands| == |records| && Safe(mem, record)
    requires forall i :: 0 <= i < |records| ==> Independent(record, records[i])
    ensures Safe(RemoveAll(mem, records, lands), record)
    decreases records
  {
    if records != [] {
      RemoveKeepsSafe(mem, record, records[0], lands[0]);
      RemoveAllLeavesSafe(Remove(mem, records[0], lands[0]), records[1..], lands[1..], record);
    }
  }

  lemma {:induction false} NoDanglingTrampoline(mem: Memory, records: seq<Record>, lands: seq<bool>, k: nat)
    requires |lands| == |records| && k < |records|
    requires forall i :: 0 <= i < |records| && i != k ==> Independent(records[k], records[i])
    requires forall a :: records[k].Holds(a) ==> a in mem && !records[k].Covers(a)
    ensures Safe(RemoveAll(mem, records, lands), records[k])
    decreases records
  {
    if k == 0 {
      RemoveLeavesSafe(mem, records[0], lands[0]);
      RemoveAllLeavesSafe(Remove(mem, records[0], lands[0]), records[1..], lands[1..], records[0]);
    } else {
      assert Independent(records[k], records[0]);
      NoDanglingTrampoline(Remove(mem, records[0], lands[0]), records[1..], lands[1..], k - 1);
    }
  }

  lemma {:induction false} HistoryGrows(mems: seq<Memory>, records: seq<Record>, i: nat, j: nat)
    requires History(mems, records) && i <= j <= |records|
    ensures mems[i].Keys <= mems[j].Keys
    decreases j - i
  {
    if i < j {
      assert Hooked(mems[i], records[i], mems[i + 1]);
      forall a | a in mems[i] ensures a in mems[i + 1] {
      }
      HistoryGrows(mems, records, i + 1, j);
    }
  }

  lemma BlocksAreFresh(mems: seq<Memory>, records: seq<Record>, i: nat, j: nat, a: int)
    requires History(mems, records) && i < j < |records| && records[i].Holds(a)
    ensures a in mems[j] && a in mems[|records|] && a !in mems[0] && !records[j].Holds(a)
  {
    assert Hooked(mems[i], records[i], mems[i + 1]) && Hooked(mems[j], records[j], mems[j + 1]);
    HistoryGrows(mems, records, 0, i);
    HistoryGrows(mems, records, i + 1, j);
    HistoryGrows(mems, records, j, |records|);
  }

  lemma BlockIsNoTarget(mems: seq<Memory>, records: seq<Record>, i: nat, a: int)
    requires History(mems, records) && i < |records| && records[i].Holds(a)
    ensures a in mems[|records|] && a !in mems[0]
  {
    assert Hooked(mems[i], records[i], mems[i + 1]);
    HistoryGrows(mems, records, 0, i);
    HistoryGrows(mems, records, i + 1, |records|);
  }

  lemma HooksAreIndependent(mems: seq<Memory>, records: seq<Record>, i: nat, j: nat)
    requires History(mems, records) && TargetsInside(records, mems[0].Keys) && DisjointTargets(records)
    requires i < |records| && j < |records| && i != j
    ensures Independent(records[i], records[j])
  {
    forall a | records[i].Covers(a) ensures !records[j].Covers(a) && !records[j].Holds(a) {
      if records[j].Holds(a) {
        BlockIsNoTarget(mems, records, j, a);
      }
    }
    forall a | records[i].Holds(a) ensures !records[j].Covers(a) && !records[j].Holds(a) {
      BlockIsNoTarget(mems, records, i, a);
      if i < j {
        BlocksAreFresh(mems, records, i, j, a);
      } else if records[j].Holds(a) {
        BlocksAreFresh(mems, records, j, i, a);
      }
    }
  }

  // After removeAll(), whichever writes landed, every hook on disjoint targets either has its original bytes back
  // or still has its trampoline mapped.
  lemma RemoveAllNeverDangles(mems: seq<Memory>, records: seq<Record>, lands: seq<bool>, k: nat)
    requires History(mems, records) && TargetsInside(records, mems[0].Keys) && DisjointTargets(records)
    requires |lands| == |records| && k < |records|
    ensures Safe(RemoveAll(mems[|records|], records, lands), records[k])
  {
    forall i | 0 <= i < |records| && i != k ensures Independent(records[k], records[i]) {
      HooksAreIndependent(mems, records, k, i);
    }
    forall a | records[k].Holds(a) ensures a in mems[|records|] && !records[k].Covers(a) {
      BlockIsNoTarget(mems, records, k, a);
    }
    NoDanglingTrampoline(mems[|records|], records, lands, k);
  }
}
