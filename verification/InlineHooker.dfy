// The inline hooker itself: the loops of install() and removeAll(), patching memory in place.

module InlineHooker {
  import opened Bytes
  import opened Wrappers
  import opened Instructions
  import opened Arch
  import opened Memory
  import opened Trampoline
  import InlineHook
  import opened HookLifecycle
  import opened ArchLaws

  type Record = InlineHook.Record

  class Pointer {
    var value: int
  }

  function Prepend<T>(done: seq<T>, rest: Option<seq<T>>): Option<seq<T>> {
    match rest
    case None => None
    case Some(tail) => Some(done + tail)
  }

  // What is left to measure after `found` completes to the whole measurement.
  ghost predicate Measuring(arch: Arch, mem: Memory, code: int, displaced: nat, found: seq<Instruction>) {
    Measure(arch, mem, code, 0) == Prepend(found, Measure(arch, mem, code, displaced))
  }

  lemma MeasureStarts(arch: Arch, mem: Memory, code: int)
    ensures Measuring(arch, mem, code, 0, [])
  {
    var rest := Measure(arch, mem, code, 0);
    if rest.Some? {
      assert [] + rest.value == rest.value;
    }
  }

  lemma MeasureAdvances(arch: Arch, mem: Memory, code: int, displaced: nat, found: seq<Instruction>, ins: Instruction)
    requires Measuring(arch, mem, code, displaced, found)
    requires displaced < arch.jumpSize && Fetch(arch, mem, code + displaced) == Some(ins) && !ins.relativeBranch
    ensures Measuring(arch, mem, code, displaced + ins.length, found + [ins])
  {
    hide Fetch;
    var rest := Measure(arch, mem, code, displaced + ins.length);
    if rest.Some? {
      assert found + ([ins] + rest.value) == found + [ins] + rest.value;
    }
  }

  lemma MeasureRefuses(arch: Arch, mem: Memory, code: int, displaced: nat, found: seq<Instruction>)
    requires Measuring(arch, mem, code, displaced, found) && displaced < arch.jumpSize
    requires var fetched := Fetch(arch, mem, code + displaced); fetched.None? || fetched.value.relativeBranch
    ensures Measure(arch, mem, code, 0) == None
  {}

  lemma MeasureEnds(arch: Arch, mem: Memory, code: int, displaced: nat, found: seq<Instruction>)
    requires Measuring(arch, mem, code, displaced, found) && displaced >= arch.jumpSize
    ensures Measure(arch, mem, code, 0) == Some(found)
  {
    assert found + [] == found;
  }

  // The measuring loop.
  method MeasureTarget(arch: Arch, mem: Memory, target: nat) returns (instrs: Option<seq<Instruction>>)
    ensures instrs == Measure(arch, mem, target, 0)
  {
    hide Measuring, Measure, Fetch;
    var found := [];
    var displaced := 0;
    MeasureStarts(arch, mem, target);
    while displaced < arch.jumpSize
      invariant Measuring(arch, mem, target, displaced, found)
      decreases arch.jumpSize - displaced
    {
      var fetched := Fetch(arch, mem, target + displaced);
      if fetched.None? || fetched.value.relativeBranch {
        MeasureRefuses(arch, mem, target, displaced, found);
        return None;
      }
      MeasureAdvances(arch, mem, target, displaced, found, fetched.value);
      found := found + [fetched.value];
      displaced := displaced + fetched.value.length;
    }
    MeasureEnds(arch, mem, target, displaced, found);
    return Some(found);
  }

  // Moving the instructions `rest`, which are `left`, after `done` completes to the whole move.
  ghost predicate Moving(arch: Arch, from: int, to: int, bytes: seq<byte>, instrs: seq<Instruction>,
                         k: nat, done: seq<byte>, left: seq<byte>, rest: seq<Instruction>)
    requires Consists(arch, bytes, instrs)
  {
    && k == |done| && k + |left| == |bytes| && Consists(arch, left, rest)
    && RelocateAll(arch, from, to, bytes, instrs) == Prepend(done, RelocateAll(arch, from + k, to + k, left, rest))
  }

  lemma MoveStarts(arch: Arch, from: int, to: int, bytes: seq<byte>, instrs: seq<Instruction>)
    requires Consists(arch, bytes, instrs)
    ensures Moving(arch, from, to, bytes, instrs, 0, [], bytes, instrs)
  {
    var moved := RelocateAll(arch, from, to, bytes, instrs);
    if moved.Some? {
      assert [] + moved.value == moved.value;
    }
  }

  lemma MoveAdvances(arch: Arch, from: int, to: int, bytes: seq<byte>, instrs: seq<Instruction>,
                     k: nat, done: seq<byte>, left: seq<byte>, rest: seq<Instruction>, head: seq<byte>)
    requires Consists(arch, bytes, instrs) && Moving(arch, from, to, bytes, instrs, k, done, left, rest) && rest != []
    requires |head| == rest[0].length && arch.relocate(from + k, to + k, left[..rest[0].length], rest[0]) == Some(head)
    ensures Moving(arch, from, to, bytes, instrs, k + |head|, done + head, left[|head|..], rest[1..])
  {
    var n := |head|;
    var tail := RelocateAll(arch, from + k + n, to + k + n, left[n..], rest[1..]);
    if tail.Some? {
      assert done + (head + tail.value) == done + head + tail.value;
    }
  }

  lemma MoveRefuses(arch: Arch, from: int, to: int, bytes: seq<byte>, instrs: seq<Instruction>,
                    k: nat, done: seq<byte>, left: seq<byte>, rest: seq<Instruction>)
    requires Consists(arch, bytes, instrs) && Moving(arch, from, to, bytes, instrs, k, done, left, rest) && rest != []
    requires arch.relocate(from + k, to + k, left[..rest[0].length], rest[0]).None?
    ensures RelocateAll(arch, from, to, bytes, instrs) == None
  {}

  lemma MoveEnds(arch: Arch, from: int, to: int, bytes: seq<byte>, instrs: seq<Instruction>,
                 k: nat, done: seq<byte>, left: seq<byte>)
    requires Consists(arch, bytes, instrs) && Moving(arch, from, to, bytes, instrs, k, done, left, [])
    ensures |done| == |bytes| && RelocateAll(arch, from, to, bytes, instrs) == Some(done)
  {
    assert done + [] == done;
  }

  function Zeros(n: nat): (s: seq<byte>)
    ensures |s| == n
  {
    seq(n, _ => 0)
  }

  // Moves the instructions of `original` from the target into the block, stopping at the first one that cannot be
  // represented there.
  method RelocateInto(arch: Arch, mem: Memory, target: int, block: int, original: seq<byte>, instrs: seq<Instruction>,
                      ghost size: nat)
    returns (ok: bool, moved: seq<byte>, after: Memory)
    requires arch.Lawful() && Consists(arch, original, instrs)
    requires Holds(mem, target, original) && Apart(block, size, target, |original|) && |original| <= size
    ensures |moved| <= |original| && after == Write(mem, block, moved)
    ensures if ok then RelocateAll(arch, target, block, original, instrs) == Some(moved) && |moved| == |original|
            else RelocateAll(arch, target, block, original, instrs) == None
  {
    hide Arch.Lawful, Holds, Write, Read, RelocateAll;
    var i, offset := 0, 0;
    moved, after := [], mem;
    ghost var left := original;
    MoveStarts(arch, target, block, original, instrs);
    WriteSame(mem, block, []);
    assert instrs[0..] == instrs;
    while i < |instrs|
      invariant i <= |instrs| && 0 <= offset <= |original| && left == original[offset..]
      invariant Moving(arch, target, block, original, instrs, offset, moved, left, instrs[i..])
      invariant after == Write(mem, block, moved)
    {
      var ins := instrs[i];
      ghost var rest := instrs[i..];
      assert arch.Movable(left[..rest[0].length], rest[0]);
      HoldsApart(mem, target, original, block, moved);
      ReadPart(after, target, original, offset, ins.length);
      var source := Read(after, target + offset, ins.length);
      var r := arch.relocate(target + offset, block + offset, source, ins);
      if r.None? {
        MoveRefuses(arch, target, block, original, instrs, offset, moved, left, rest);
        return false, moved, after;
      }
      RelocatedSized(arch, target + offset, block + offset, source, ins);
      MoveAdvances(arch, target, block, original, instrs, offset, moved, left, rest, r.value);
      WriteAppend(mem, block, moved, r.value, after, offset);
      after := Write(after, block + offset, r.value);
      moved := moved + r.value;
      left := left[ins.length..];
      assert rest[1..] == instrs[i + 1..];
      offset := offset + ins.length;
      i := i + 1;
    }
    MoveEnds(arch, target, block, original, instrs, offset, moved, left);
    ok := true;
  }

  // Maps a block and fills it with the moved instructions and the jump back, or unmaps it again.
  method FillBlock(arch: Arch, mem: Memory, target: nat, block: int, original: seq<byte>, instrs: seq<Instruction>)
    returns (moved: Option<seq<byte>>, after: Memory)
    requires arch.Lawful() && Consists(arch, original, instrs) && Holds(mem, target, original)
    requires Free(mem, block, |original| + arch.jumpSize)
    ensures moved == RelocateAll(arch, target, block, original, instrs)
    ensures after == if moved.None? then mem else Write(mem, block, moved.value + arch.jump(target + |original|))
  {
    hide *;
    var zeros := Zeros(|original| + arch.jumpSize);
    FreshHolds(mem, block, zeros, target, original);
    var ok, filled, partly := RelocateInto(arch, Write(mem, block, zeros), target, block, original, instrs, |zeros|);
    if ok {
      var jump := arch.jump(target + |original|);
      JumpSized(arch, target + |original|);
      WriteFills(mem, block, zeros, filled, jump, partly, |original|);
      return Some(filled), Write(partly, block + |original|, jump);
    } else {
      UnmapPartial(mem, block, zeros, filled);
      return None, Unmap(partly, block, |zeros|);
    }
  }

  // The first half of install(): measure, map a block, fill the trampoline; the target is not touched.
  method BuildTrampoline(arch: Arch, mem: Memory, target: nat, env: InlineHook.Environment)
    returns (plan: Option<InlineHook.Plan>, after: Memory)
    requires arch.Lawful() && InlineHook.Honest(mem, env)
    ensures plan == InlineHook.MakePlan(arch, mem, target, env)
    ensures after == if plan.None? then mem
                     else Write(mem, plan.value.block, InlineHook.TrampolineBytes(arch, target, plan.value))
  {
    hide *;
    var measured := MeasureTarget(arch, mem, target);
    if measured.None? {
      InlineHook.MakePlanRefuses(arch, mem, target, env);
      return None, mem;
    }
    var instrs := measured.value;
    InlineHook.MeasuredHolds(arch, mem, target, instrs);
    InlineHook.MakePlanSteps(arch, mem, target, env, instrs);
    var displaced := TotalLength(instrs);
    var original := Read(mem, target, displaced);
    assert |original| + arch.jumpSize == displaced + arch.jumpSize;
    var block := env.allocate(displaced + arch.jumpSize);
    if block.None? {
      return None, mem;
    }
    InlineHook.AllocatedIsFree(mem, env, displaced + arch.jumpSize);
    var moved;
    moved, after := FillBlock(arch, mem, target, block.value, original, instrs);
    if moved.None? {
      return None, after;
    }
    plan := Some(InlineHook.Plan(instrs, original, block.value, moved.value));
    InlineHook.TrampolineBytesOf(arch, target, plan.value);
  }

  class Hooker {
    const arch: Arch
    var mem: Memory
    var installed: seq<Record>
    // Every memory the successful installs went through, oldest first.
    ghost var history: seq<Memory>

    ghost predicate Valid()
      reads this
    {
      Current(history, installed, mem)
    }

    constructor (arch: Arch, mem: Memory)
      ensures Valid() && this.arch == arch && this.mem == mem && installed == [] && history == [mem]
    {
      this.arch := arch;
      this.mem := mem;
      installed := [];
      history := [mem];
    }

    method WriteCode(destination: int, source: seq<byte>, lands: bool) returns (ok: bool)
      modifies this`mem
      ensures (mem, ok) == InlineHook.WriteCode(old(mem), destination, source, lands)
    {
      if lands && Mapped(mem, destination, |source|) {
        mem := Write(mem, destination, source);
      }
      ok := Mapped(mem, destination, |source|) && Read(mem, destination, |source|) == source;
    }

    method Install(target: nat, replacement: nat, originalOut: Pointer?, env: InlineHook.Environment) returns (ok: bool)
      requires Valid() && arch.Lawful() && InlineHook.Honest(mem, env)
      modifies this, originalOut
      ensures Valid()
      ensures ok == InlineHook.Install(arch, old(mem), target, replacement, env).Some?
      ensures ok ==>
        var (after, record) := InlineHook.Install(arch, old(mem), target, replacement, env).value;
        && mem == after && installed == old(installed) + [record] && history == old(history) + [mem]
        && (originalOut != null ==> originalOut.value == record.trampoline)
      ensures !ok ==> mem == old(mem) && installed == old(installed) && history == old(history)
                      && (originalOut != null ==> originalOut.value == old(originalOut.value))
    {
      hide Arch.Lawful, InlineHook.Honest, InlineHook.Install, InlineHook.MakePlan, InlineHook.PlanHolds;
      hide InlineHook.WriteCode, InlineHook.PatchBytes, InlineHook.TrampolineBytes, Write, Unmap, Hooked, Current;
      if target == 0 || replacement == 0 {
        InlineHook.InstallRefuses(arch, mem, target, replacement, env);
        return false;
      }
      var planned;
      planned, mem := BuildTrampoline(arch, mem, target, env);
      if planned.None? {
        InlineHook.InstallRefuses(arch, old(mem), target, replacement, env);
        return false;
      }
      var plan := planned.value;
      var size := |plan.original| + arch.jumpSize;
      var patch := InlineHook.PatchBytes(arch, plan.original, replacement);
      InlineHook.MakePlanHolds(arch, old(mem), target, env);
      InlineHook.InstallSteps(arch, old(mem), target, replacement, env, plan);
      InlineHook.PatchFails(arch, old(mem), target, replacement, plan, env.writeLands);
      if !env.unprotected && !env.patchAvailable {
        mem := Unmap(mem, plan.block, size);
        return false;
      }
      ok := WriteCode(target, patch, env.writeLands);
      if !ok {
        mem := Unmap(mem, plan.block, size);
        return false;
      }
      if originalOut != null {
        originalOut.value := plan.block;
      }
      var record := InlineHook.Record(target, plan.original, plan.block, size);
      InstallHooks(arch, old(mem), target, replacement, env);
      HistorySnoc(history, installed, old(mem), record, mem);
      installed := installed + [record];
      history := history + [mem];
    }

    // Restores every hook, oldest first; `lands` says which writes take.
    method RemoveAll(lands: seq<bool>)
      requires Valid() && |lands| == |installed|
      modifies this
      ensures Valid() && installed == []
      ensures mem == InlineHook.RemoveAll(old(mem), old(installed), lands)
    {
      var records := installed;
      installed := [];
      var i := 0;
      assert records[0..] == records && lands[0..] == lands;
      while i < |records|
        invariant i <= |records| && installed == []
        invariant InlineHook.RemoveAll(old(mem), records, lands) == InlineHook.RemoveAll(mem, records[i..], lands[i..])
      {
        var record := records[i];
        assert records[i..][1..] == records[i + 1..] && lands[i..][1..] == lands[i + 1..];
        var restored := WriteCode(record.target, record.originalBytes, lands[i]);
        if restored {
          mem := Unmap(mem, record.trampoline, record.trampolineSize);
        }
        i := i + 1;
      }
      history := [mem];
    }

    method InstalledCount() returns (n: nat)
      ensures n == |installed|
    {
      n := |installed|;
    }
  }
}
