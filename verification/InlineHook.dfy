// The install / remove transaction of the inline hooker, as functions of memory.

module InlineHook {
  import opened Bytes
  import opened Wrappers
  import opened Instructions
  import opened Arch
  import opened Memory
  import opened Trampoline
  import L = ArchLaws

  const POINTER_LIMIT := 0x8000_0000_0000_0000

  datatype Record = Record(target: int, originalBytes: seq<byte>, trampoline: int, trampolineSize: nat)
  {
    predicate Covers(a: int) {
      target <= a < target + |originalBytes|
    }

    predicate Holds(a: int) {
      trampoline <= a < trampoline + trampolineSize
    }

    function Saved(a: int): byte
      requires Covers(a)
    {
      originalBytes[a - target]
    }
  }

  // The answers of the operating system and the launcher during one install().
  datatype Environment = Environment(
    allocate: nat -> Option<int>,
    unprotected: bool,
    patchAvailable: bool,
    writeLands: bool)

  // mmap hands out fresh memory.
  ghost predicate Honest(mem: Memory, env: Environment) {
    forall n :: env.allocate(n).Some? ==> Free(mem, env.allocate(n).value, n)
  }

  // User-space addresses: address arithmetic on them stays inside 64 bits.
  ghost predicate UserSpace(mem: Memory) {
    forall a :: a in mem ==> 0 < a < POINTER_LIMIT
  }

  // A write takes fully or not at all; whether it took is decided by what can be read at the destination after it.
  function WriteCode(mem: Memory, destination: int, source: seq<byte>, lands: bool): (r: (Memory, bool))
    ensures r.1 ==> Mapped(r.0, destination, |source|) && Read(r.0, destination, |source|) == source
  {
    var after := if lands && Mapped(mem, destination, |source|) then Write(mem, destination, source) else mem;
    (after, Mapped(after, destination, |source|) && Read(after, destination, |source|) == source)
  }

  // What install() works out before it touches the target.
  datatype Plan = Plan(instrs: seq<Instruction>, original: seq<byte>, block: int, moved: seq<byte>)

  function MakePlan(arch: Arch, mem: Memory, target: nat, env: Environment): Option<Plan>
    requires arch.Lawful()
  {
    match Measure(arch, mem, target, 0)
    case None => None
    case Some(instrs) =>
      MeasureIsMeasured(arch, mem, target, 0);
      var displaced := TotalLength(instrs);
      var original := Read(mem, target, displaced);
      match env.allocate(displaced + arch.jumpSize)
      case None => None
      case Some(block) =>
        match RelocateAll(arch, target, block, original, instrs)
        case None => None
        case Some(moved) => Some(Plan(instrs, original, block, moved))
  }

  // What goes into the allocated block: the moved code, followed by a jump to what comes after it in the target.
  function TrampolineBytes(arch: Arch, target: nat, plan: Plan): seq<byte> {
    plan.moved + arch.jump(target + |plan.original|)
  }

  // What install() leaves behind, or None when it refuses.
  function Install(arch: Arch, mem: Memory, target: nat, replacement: nat, env: Environment): Option<(Memory, Record)>
    requires arch.Lawful()
  {
    if target == 0 || replacement == 0 then None
    else
      match MakePlan(arch, mem, target, env)
      case None => None
      case Some(plan) =>
        if !env.unprotected && !env.patchAvailable then None
        else
          var mapped := Write(mem, plan.block, TrampolineBytes(arch, target, plan));
          var (after, landed) := WriteCode(mapped, target, PatchBytes(arch, plan.original, replacement), env.writeLands);
          if landed then Some((after, Record(target, plan.original, plan.block, |plan.original| + arch.jumpSize)))
          else None
  }

  // The jump, then what is left of the displaced bytes.
  function PatchBytes(arch: Arch, original: seq<byte>, replacement: nat): (patch: seq<byte>)
  {
    arch.jump(replacement) + (if arch.jumpSize <= |original| then original[arch.jumpSize..] else [])
  }

  function Remove(mem: Memory, record: Record, lands: bool): Memory {
    var (after, restored) := WriteCode(mem, record.target, record.originalBytes, lands);
    if restored then Unmap(after, record.trampoline, record.trampolineSize) else after
  }

  // removeAll(): oldest record first.
  function RemoveAll(mem: Memory, records: seq<Record>, lands: seq<bool>): Memory
    requires |lands| == |records|
    decreases records
  {
    if records == [] then mem else RemoveAll(Remove(mem, records[0], lands[0]), records[1..], lands[1..])
  }

  // ---- One install

  ghost predicate PlanHolds(arch: Arch, mem: Memory, target: nat, plan: Plan) {
    match plan
    case Plan(instrs, original, block, moved) =>
      && arch.jumpSize <= |original| == TotalLength(instrs)
      && Holds(mem, target, original)
      && Free(mem, block, |original| + arch.jumpSize)
      && Consists(arch, original, instrs)
      && Relocated(arch, target, block, original, moved, instrs)
  }

  lemma MakePlanHolds(arch: Arch, mem: Memory, target: nat, env: Environment)
    requires arch.Lawful() && Honest(mem, env) && MakePlan(arch, mem, target, env).Some?
    ensures PlanHolds(arch, mem, target, MakePlan(arch, mem, target, env).value)
  {
    var plan := MakePlan(arch, mem, target, env).value;
    MeasureIsMeasured(arch, mem, target, 0);
    HoldsRead(mem, target, plan.original);
    RelocateAllKeeps(arch, target, plan.block, plan.original, plan.instrs);
  }

  lemma MeasuredHolds(arch: Arch, mem: Memory, target: nat, instrs: seq<Instruction>)
    requires arch.Lawful() && Measure(arch, mem, target, 0) == Some(instrs)
    ensures var n := TotalLength(instrs);
      && arch.jumpSize <= n && Mapped(mem, target, n)
      && Holds(mem, target, Read(mem, target, n)) && Consists(arch, Read(mem, target, n), instrs)
  {
    MeasureIsMeasured(arch, mem, target, 0);
    HoldsRead(mem, target, Read(mem, target, TotalLength(instrs)));
  }

  lemma TrampolineBytesOf(arch: Arch, target: nat, plan: Plan)
    ensures TrampolineBytes(arch, target, plan) == plan.moved + arch.jump(target + |plan.original|)
  {}

  lemma AllocatedIsFree(mem: Memory, env: Environment, n: nat)
    requires Honest(mem, env) && env.allocate(n).Some?
    ensures Free(mem, env.allocate(n).value, n)
  {}

  lemma MakePlanRefuses(arch: Arch, mem: Memory, target: nat, env: Environment)
    requires arch.Lawful() && Measure(arch, mem, target, 0).None?
    ensures MakePlan(arch, mem, target, env).None?
  {}

  // MakePlan, step by step.
  lemma MakePlanSteps(arch: Arch, mem: Memory, target: nat, env: Environment, instrs: seq<Instruction>)
    requires arch.Lawful() && Measure(arch, mem, target, 0) == Some(instrs)
    requires Mapped(mem, target, TotalLength(instrs)) && Consists(arch, Read(mem, target, TotalLength(instrs)), instrs)
    ensures var original := Read(mem, target, TotalLength(instrs));
      var block := env.allocate(TotalLength(instrs) + arch.jumpSize);
      && (block.None? ==> MakePlan(arch, mem, target, env) == None)
      && (block.Some? ==>
            var moved := RelocateAll(arch, target, block.value, original, instrs);
            && (moved.None? ==> MakePlan(arch, mem, target, env) == None)
            && (moved.Some? ==>
                  MakePlan(arch, mem, target, env) == Some(Plan(instrs, original, block.value, moved.value))))
  {}

  // The memory after a successful install is the old one with a trampoline added and the target patched.
  function Patched(arch: Arch, mem: Memory, target: nat, replacement: nat, plan: Plan): Memory {
    Write(Write(mem, plan.block, TrampolineBytes(arch, target, plan)), target,
          PatchBytes(arch, plan.original, replacement))
  }

  lemma InstallRefuses(arch: Arch, mem: Memory, target: nat, replacement: nat, env: Environment)
    requires arch.Lawful()
    requires target == 0 || replacement == 0 || MakePlan(arch, mem, target, env).None?
    ensures Install(arch, mem, target, replacement, env).None?
  {}

  // Install, once there is a plan.
  lemma InstallSteps(arch: Arch, mem: Memory, target: nat, replacement: nat, env: Environment, plan: Plan)
    requires arch.Lawful() && target != 0 && replacement != 0 && MakePlan(arch, mem, target, env) == Some(plan)
    ensures var mapped := Write(mem, plan.block, TrampolineBytes(arch, target, plan));
      var written := WriteCode(mapped, target, PatchBytes(arch, plan.original, replacement), env.writeLands);
      Install(arch, mem, target, replacement, env) ==
        if (env.unprotected || env.patchAvailable) && written.1
        then Some((written.0, Record(target, plan.original, plan.block, |plan.original| + arch.jumpSize)))
        else None
  {}

  // Patching either lands, or leaves memory with just the trampoline added, which unmapping undoes.
  lemma PatchFails(arch: Arch, mem: Memory, target: nat, replacement: nat, plan: Plan, lands: bool)
    requires arch.Lawful() && PlanHolds(arch, mem, target, plan)
    ensures var mapped := Write(mem, plan.block, TrampolineBytes(arch, target, plan));
      var written := WriteCode(mapped, target, PatchBytes(arch, plan.original, replacement), lands);
      && (!written.1 ==> written.0 == mapped)
      && Unmap(mapped, plan.block, |plan.original| + arch.jumpSize) == mem
  {
    hide Arch.Lawful, Holds, Free, Write, Unmap, TrampolineBytes, PatchBytes;
    BytesSizes(arch, target, replacement, plan);
    var trampoline := TrampolineBytes(arch, target, plan);
    assert |trampoline| == |plan.original| + arch.jumpSize;
    UnmapFresh(mem, plan.block, trampoline);
    LandingWrites(Write(mem, plan.block, trampoline), target, PatchBytes(arch, plan.original, replacement), lands);
  }

  lemma LandingWrites(mem: Memory, destination: int, source: seq<byte>, lands: bool)
    ensures !WriteCode(mem, destination, source, lands).1 ==> WriteCode(mem, destination, source, lands).0 == mem
  {
    assert Holds(Write(mem, destination, source), destination, source);
    HoldsRead(Write(mem, destination, source), destination, source);
  }

  lemma BytesSizes(arch: Arch, target: nat, replacement: nat, plan: Plan)
    requires arch.Lawful() && arch.jumpSize <= |plan.original| == |plan.moved|
    ensures |PatchBytes(arch, plan.original, replacement)| == |plan.original|
    ensures |TrampolineBytes(arch, target, plan)| == |plan.original| + arch.jumpSize
  {}

  lemma PlanIsMeasured(arch: Arch, mem: Memory, target: nat, env: Environment)
    requires arch.Lawful() && MakePlan(arch, mem, target, env).Some?
    ensures Measure(arch, mem, target, 0) == Some(MakePlan(arch, mem, target, env).value.instrs)
  {
    hide Arch.Lawful, Measure;
  }

  lemma InstallPatches(arch: Arch, mem: Memory, target: nat, replacement: nat, env: Environment) returns (plan: Plan)
    requires arch.Lawful() && Honest(mem, env) && Install(arch, mem, target, replacement, env).Some?
    ensures PlanHolds(arch, mem, target, plan) && Measure(arch, mem, target, 0) == Some(plan.instrs)
    ensures var (after, record) := Install(arch, mem, target, replacement, env).value;
      && record == Record(target, plan.original, plan.block, |plan.original| + arch.jumpSize)
      && after == Patched(arch, mem, target, replacement, plan)
  {
    plan := MakePlan(arch, mem, target, env).value;
    MakePlanHolds(arch, mem, target, env);
    PlanIsMeasured(arch, mem, target, env);
    var mapped := Write(mem, plan.block, TrampolineBytes(arch, target, plan));
    var patch := PatchBytes(arch, plan.original, replacement);
    BytesSizes(arch, target, replacement, plan);
    HoldsRead(mapped, target, patch);
    if Holds(mapped, target, patch) {
      WriteSame(mapped, target, patch);
    }
  }

  lemma TrampolineHeld(arch: Arch, mem: Memory, target: nat, replacement: nat, plan: Plan)
    requires arch.Lawful() && PlanHolds(arch, mem, target, plan)
    ensures Holds(Patched(arch, mem, target, replacement, plan), plan.block, TrampolineBytes(arch, target, plan))
  {
    BytesSizes(arch, target, replacement, plan);
    var trampoline := TrampolineBytes(arch, target, plan);
    FreshIsApart(mem, plan.block, |trampoline|, target, |plan.original|);
    HoldsApart(Write(mem, plan.block, trampoline), plan.block, trampoline,
               target, PatchBytes(arch, plan.original, replacement));
  }

  lemma JumpBackHeld(arch: Arch, mem: Memory, target: nat, replacement: nat, plan: Plan)
    requires arch.Lawful() && PlanHolds(arch, mem, target, plan)
    ensures var after := Patched(arch, mem, target, replacement, plan);
      var n := TotalLength(plan.instrs);
      Holds(after, plan.block, plan.moved) && Holds(after, plan.block + n, arch.jump(target + n))
  {
    hide Arch.Lawful, Patched, Holds, TrampolineBytes;
    TrampolineHeld(arch, mem, target, replacement, plan);
    TrampolineBytesOf(arch, target, plan);
    var n := TotalLength(plan.instrs);
    assert |plan.moved| == n && plan.block + |plan.moved| == plan.block + n && target + |plan.original| == target + n;
    HoldsJoin(Patched(arch, mem, target, replacement, plan), plan.block, plan.moved, arch.jump(target + n));
  }

  lemma TargetHeld(arch: Arch, mem: Memory, target: nat, replacement: nat, plan: Plan)
    requires arch.Lawful() && PlanHolds(arch, mem, target, plan)
    ensures Holds(Patched(arch, mem, target, replacement, plan), target, arch.jump(replacement))
  {
    var after := Patched(arch, mem, target, replacement, plan);
    assert Holds(after, target, PatchBytes(arch, plan.original, replacement));
    HoldsJoin(after, target, arch.jump(replacement), plan.original[arch.jumpSize..]);
  }

  // Calling a hooked target goes to the replacement.
  lemma TargetReachesReplacement<S>(arch: Arch, mem: Memory, target: nat, replacement: nat, plan: Plan, state: S)
    requires arch.Lawful() && PlanHolds(arch, mem, target, plan) && replacement < UINT64_LIMIT
    ensures FollowJump(arch, Patched(arch, mem, target, replacement, plan), At(target, state)) == At(replacement, state)
  {
    TargetHeld(arch, mem, target, replacement, plan);
    JumpIsFollowed(arch, Patched(arch, mem, target, replacement, plan), target, replacement, state);
  }

  // Both copies of the instructions have the same effects, and the moved one jumps back to the end of the other.
  ghost predicate Twins(arch: Arch, mem: Memory, target: nat, original: seq<byte>,
                        after: Memory, block: int, moved: seq<byte>, instrs: seq<Instruction>)
  {
    match arch
    case Arch(_, _, _, _, _, _, _) =>
      && Consists(arch, original, instrs) && Holds(mem, target, original)
      && Consists(arch, moved, instrs) && Holds(after, block, moved)
      && Effects(arch, target, original, instrs) == Effects(arch, block, moved, instrs)
      && target + TotalLength(instrs) < UINT64_LIMIT
      && Holds(after, block + TotalLength(instrs), arch.jump(target + TotalLength(instrs)))
  }

  lemma TwinsRunAlike<S>(arch: Arch, mem: Memory, target: nat, original: seq<byte>, after: Memory, block: int,
                         moved: seq<byte>, instrs: seq<Instruction>, state: S, exec: (Effect, S) -> Next<S>)
    requires arch.Lawful() && Twins(arch, mem, target, original, after, block, moved, instrs)
    ensures FollowJump(arch, after, Run(arch, after, block, |instrs|, state, exec))
      == Run(arch, mem, target, |instrs|, state, exec)
  {
    hide Arch.Lawful, Holds, Run, RunEffects, FollowJump, Effects;
    var effects := Effects(arch, target, original, instrs);
    RunHeld(arch, mem, target, original, instrs, state, exec);
    RunHeld(arch, after, block, moved, instrs, state, exec);
    RunEffectsFrom(target, block, instrs, effects, state, exec);
    var here := RunEffects(target, instrs, effects, state, exec);
    if here.At? {
      JumpIsFollowed(arch, after, block + TotalLength(instrs), target + TotalLength(instrs), here.state);
    } else {
      FollowNothing(arch, after, here);
    }
  }

  lemma FollowNothing<S>(arch: Arch, after: Memory, here: Outcome<S>)
    requires !here.At?
    ensures FollowJump(arch, after, here) == here
  {}

  lemma PlanTwins(arch: Arch, mem: Memory, target: nat, replacement: nat, plan: Plan)
    requires arch.Lawful() && UserSpace(mem) && PlanHolds(arch, mem, target, plan)
    ensures Twins(arch, mem, target, plan.original, Patched(arch, mem, target, replacement, plan), plan.block, plan.moved,
                  plan.instrs)
  {
    hide Arch.Lawful, Patched, PlanHolds, Twins, UserSpace;
    JumpBackHeld(arch, mem, target, replacement, plan);
    PlanOriginal(arch, mem, target, plan);
    TwinsAnywhere(arch, mem, target, plan, mem, Patched(arch, mem, target, replacement, plan));
  }

  lemma PlanOriginal(arch: Arch, mem: Memory, target: nat, plan: Plan)
    requires PlanHolds(arch, mem, target, plan)
    ensures Holds(mem, target, plan.original) && arch.jumpSize <= |plan.original| == TotalLength(plan.instrs)
  {
  }

  // Wherever the original bytes are still, or still are again, and wherever the trampoline is.
  lemma TwinsAnywhere(arch: Arch, mem: Memory, target: nat, plan: Plan, base: Memory, after: Memory)
    requires arch.Lawful() && PlanHolds(arch, mem, target, plan) && UserSpace(base) && Holds(base, target, plan.original)
    requires Holds(after, plan.block, plan.moved)
    requires var n := TotalLength(plan.instrs); Holds(after, plan.block + n, arch.jump(target + n))
    ensures Twins(arch, base, target, plan.original, after, plan.block, plan.moved, plan.instrs)
  {
    hide Arch.Lawful, Effects, Consists, TotalLength;
    L.JumpSized(arch, 0);
    assert target + |plan.original| - 1 in base;
  }

  // The trampoline preserves meaning: whatever effects do to whatever machine state, running the displaced
  // instructions from the trampoline and following its jump ends exactly where, and in exactly the state in
  // which, running them from the unpatched target would have.
  lemma TrampolinePreservesMeaning<S>(arch: Arch, mem: Memory, target: nat, replacement: nat, plan: Plan,
                                      state: S, exec: (Effect, S) -> Next<S>)
    requires arch.Lawful() && UserSpace(mem) && PlanHolds(arch, mem, target, plan)
    ensures var after := Patched(arch, mem, target, replacement, plan);
      FollowJump(arch, after, Run(arch, after, plan.block, |plan.instrs|, state, exec))
        == Run(arch, mem, target, |plan.instrs|, state, exec)
  {
    hide *;
    PlanTwins(arch, mem, target, replacement, plan);
    TwinsRunAlike(arch, mem, target, plan.original, Patched(arch, mem, target, replacement, plan), plan.block,
                  plan.moved, plan.instrs, state, exec);
  }
}
