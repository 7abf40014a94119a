// The inline hooker's results, stated on install() itself, for any lawful instruction set; X86Arch.Lawful and
// Aarch64Arch.Lawful say that both are.

module HookTheorems {
  import opened Bytes
  import opened Wrappers
  import opened Instructions
  import opened Arch
  import opened Memory
  import opened Trampoline
  import opened InlineHook
  import opened HookLifecycle
  import opened ArchLaws
  import D = HookDangling

  // After a successful install, calling the target reaches the replacement; calling the trampoline does what the
  // displaced instructions did, all `n` that were measured, and continues in the target; nothing else in memory changed.
  lemma InstalledHookWorks<S>(arch: Arch, mem: Memory, target: nat, replacement: nat, env: Environment,
                              state: S, exec: (Effect, S) -> Next<S>) returns (n: nat)
    requires arch.Lawful() && Honest(mem, env) && UserSpace(mem) && replacement < UINT64_LIMIT
    requires Install(arch, mem, target, replacement, env).Some?
    ensures Measure(arch, mem, target, 0).Some? && n == |Measure(arch, mem, target, 0).value|
    ensures var (after, record) := Install(arch, mem, target, replacement, env).value;
      && TotalLength(Measure(arch, mem, target, 0).value) == |record.originalBytes| >= arch.jumpSize
      && FollowJump(arch, after, At(target, state)) == At(replacement, state)
      && FollowJump(arch, after, Run(arch, after, record.trampoline, n, state, exec))
           == Run(arch, mem, target, n, state, exec)
      && Hooked(mem, record, after)
  {
    hide Arch.Lawful, Install, Patched, PlanHolds, UserSpace, Honest, Hooked, FollowJump, Run;
    var plan := InstallPatches(arch, mem, target, replacement, env);
    n := |plan.instrs|;
    PlanOriginal(arch, mem, target, plan);
    TargetReachesReplacement(arch, mem, target, replacement, plan, state);
    TrampolinePreservesMeaning(arch, mem, target, replacement, plan, state, exec);
    InstallHooks(arch, mem, target, replacement, env);
  }

  // ---- When install() succeeds

  // These are the displaced instructions, and they can be moved to the block the system gives.
  ghost predicate Feasible(arch: Arch, mem: Memory, target: nat, env: Environment, instrs: seq<Instruction>, block: int) {
    var n := TotalLength(instrs);
    && Displaces(arch, mem, target, arch.jumpSize, instrs)
    && Mapped(mem, target, n) && Consists(arch, Read(mem, target, n), instrs)
    && env.allocate(n + arch.jumpSize) == Some(block)
    && RelocateAll(arch, target, block, Read(mem, target, n), instrs).Some?
  }

  lemma PlanIsFeasible(arch: Arch, mem: Memory, target: nat, env: Environment)
    requires arch.Lawful()
    ensures MakePlan(arch, mem, target, env).Some?
       <==> exists instrs, block :: Feasible(arch, mem, target, env, instrs, block)
  {
    var measured := Measure(arch, mem, target, 0);
    if measured.None? {
      MakePlanRefuses(arch, mem, target, env);
      hide Arch.Lawful, MakePlan, Measure, Displaces, Consists, RelocateAll;
      forall instrs, block
        ensures !Feasible(arch, mem, target, env, instrs, block)
      {
        MeasureExactly(arch, mem, target, instrs);
      }
    } else {
      FeasibleOnly(arch, mem, target, env, measured.value);
    }
  }

  lemma FeasibleOnly(arch: Arch, mem: Memory, target: nat, env: Environment, measured: seq<Instruction>)
    requires arch.Lawful() && Measure(arch, mem, target, 0) == Some(measured)
    ensures MakePlan(arch, mem, target, env).Some?
       <==> exists instrs, block :: Feasible(arch, mem, target, env, instrs, block)
  {
    hide Arch.Lawful, MakePlan, Measure, Displaces, Consists, RelocateAll, Mapped, Holds;
    MeasuredHolds(arch, mem, target, measured);
    MakePlanSteps(arch, mem, target, env, measured);
    MeasureExactly(arch, mem, target, measured);
    forall instrs, block | Feasible(arch, mem, target, env, instrs, block)
      ensures instrs == measured && env.allocate(TotalLength(measured) + arch.jumpSize) == Some(block)
    {
      MeasureExactly(arch, mem, target, instrs);
    }
    var block := env.allocate(TotalLength(measured) + arch.jumpSize);
    if block.Some? {
      assert Feasible(arch, mem, target, env, measured, block.value)
        <==> RelocateAll(arch, target, block.value, Read(mem, target, TotalLength(measured)), measured).Some?;
    }
  }

  // The patch is there already exactly when the jump is: what comes after it is what was there.
  lemma PatchIsThere(arch: Arch, mem: Memory, target: nat, replacement: nat, plan: Plan)
    requires arch.Lawful() && PlanHolds(arch, mem, target, plan)
    ensures var mapped := Write(mem, plan.block, TrampolineBytes(arch, target, plan));
      var patch := PatchBytes(arch, plan.original, replacement);
      Mapped(mapped, target, |patch|) && (Holds(mapped, target, patch) <==> Holds(mem, target, arch.jump(replacement)))
  {
    hide Arch.Lawful, Consists, TotalLength, TrampolineBytes;
    JumpSized(arch, replacement);
    BytesSizes(arch, target, replacement, plan);
    PatchOver(mem, plan.block, TrampolineBytes(arch, target, plan), target, arch.jump(replacement), plan.original);
  }

  lemma PatchOver(mem: Memory, block: int, trampoline: seq<byte>, target: int, jump: seq<byte>, original: seq<byte>)
    requires Free(mem, block, |trampoline|) && Holds(mem, target, original) && |jump| <= |original|
    ensures var patch := jump + original[|jump|..]; var mapped := Write(mem, block, trampoline);
      Mapped(mapped, target, |patch|) && (Holds(mapped, target, patch) <==> Holds(mem, target, jump))
  {
    hide Free, Write;
    FreshHolds(mem, block, trampoline, target, original);
    var mapped := Write(mem, block, trampoline);
    HoldsJoin(mapped, target, jump, original[|jump|..]);
    HoldsJoin(mapped, target, original[..|jump|], original[|jump|..]);
    assert original[..|jump|] + original[|jump|..] == original;
    SameThere(mem, mapped, target, jump, original);
  }

  lemma SameThere(mem: Memory, mapped: Memory, target: int, jump: seq<byte>, original: seq<byte>)
    requires Holds(mem, target, original) && Holds(mapped, target, original) && |jump| <= |original|
    ensures Holds(mapped, target, jump) <==> Holds(mem, target, jump)
  {
    forall a | target <= a < target + |jump|
      ensures a in mem && a in mapped && mem[a] == mapped[a]
    {
      assert mem[a] == original[a - target];
    }
  }

  // install() succeeds exactly when neither address is null, the target starts with whole instructions that are no relative
  // branches and can all be moved to the block it is given, one of the two ways to write is open, and the write takes or the
  // jump is there already.
  lemma InstallSucceedsExactly(arch: Arch, mem: Memory, target: nat, replacement: nat, env: Environment)
    requires arch.Lawful() && Honest(mem, env)
    ensures Install(arch, mem, target, replacement, env).Some? <==>
      && target != 0 && replacement != 0
      && (exists instrs, block :: Feasible(arch, mem, target, env, instrs, block))
      && (env.unprotected || env.patchAvailable)
      && (env.writeLands || Holds(mem, target, arch.jump(replacement)))
  {
    hide Arch.Lawful, Honest, Install, MakePlan, Feasible, PlanHolds, Holds, Mapped, Write, WriteCode, TrampolineBytes;
    hide PatchBytes;
    PlanIsFeasible(arch, mem, target, env);
    if target == 0 || replacement == 0 || MakePlan(arch, mem, target, env).None? {
      InstallRefuses(arch, mem, target, replacement, env);
    } else {
      var plan := MakePlan(arch, mem, target, env).value;
      MakePlanHolds(arch, mem, target, env);
      InstallSteps(arch, mem, target, replacement, env, plan);
      PatchIsThere(arch, mem, target, replacement, plan);
      D.WriteCodeIs(Write(mem, plan.block, TrampolineBytes(arch, target, plan)), target,
                    PatchBytes(arch, plan.original, replacement), env.writeLands);
    }
  }

  // Hooking one target twice is undone by removeAll() exactly when the first hook had changed nothing, that is
  // when the target already was the very jump it wrote. Otherwise that jump is what is left, into a block that is gone.
  lemma SameTargetTwice(arch: Arch, mem: Memory, target: nat, first: nat, second: nat, env: Environment,
                        env': Environment)
    requires arch.Lawful() && Honest(mem, env) && Install(arch, mem, target, first, env).Some?
    requires var (once, _) := Install(arch, mem, target, first, env).value;
      Honest(once, env') && Install(arch, once, target, second, env').Some?
    requires var (once, record) := Install(arch, mem, target, first, env).value;
      var (_, record') := Install(arch, once, target, second, env').value;
      TargetsInside([record, record'], mem.Keys)
    ensures var (once, record) := Install(arch, mem, target, first, env).value;
      var (twice, record') := Install(arch, once, target, second, env').value;
      var left := RemoveAll(twice, [record, record'], AllLand(2));
      && (left == mem <==> Holds(mem, target, arch.jump(first)))
      && (Safe(left, record) <==> Holds(mem, target, arch.jump(first)))
  {
    hide Safe, Arch.Lawful, Honest, Hooked, Holds, RemoveAll, AllLand, PlanHolds, Patched;
    hide TrampolineBytes, PatchBytes, MakePlan;
    var (once, record) := Install(arch, mem, target, first, env).value;
    var (twice, record') := Install(arch, once, target, second, env').value;
    var plan := InstallPatches(arch, mem, target, first, env);
    var plan' := InstallPatches(arch, once, target, second, env');
    InstallHooks(arch, mem, target, first, env);
    InstallHooks(arch, once, target, second, env');
    SameRange(arch, mem, target, first, plan);
    SameRange(arch, once, target, second, plan');
    TwoHooks(mem, once, twice, record, record', target, arch.jump(first));
    TwoHooksDangle(mem, once, twice, record, record', target, arch.jump(first));
  }

  // `after` is `mem` with `jump` written at `target`, and perhaps more memory mapped.
  ghost predicate Overlaid(mem: Memory, after: Memory, target: int, jump: seq<byte>) {
    forall a :: a in mem ==> a in after && after[a] == if target <= a < target + |jump| then jump[a - target] else mem[a]
  }

  // Patching writes exactly the jump: the displaced bytes after it keep their values.
  lemma SameRange(arch: Arch, mem: Memory, target: nat, replacement: nat, plan: Plan)
    requires arch.Lawful() && PlanHolds(arch, mem, target, plan)
    ensures var jump := arch.jump(replacement);
      && |jump| == arch.jumpSize <= |plan.original| && Holds(mem, target, plan.original) && Mapped(mem, target, |jump|)
      && Overlaid(mem, Patched(arch, mem, target, replacement, plan), target, jump)
  {
    hide Arch.Lawful, Consists, TotalLength;
    JumpSized(arch, replacement);
    BytesSizes(arch, target, replacement, plan);
    PatchedBytes(mem, plan.block, TrampolineBytes(arch, target, plan), target, arch.jump(replacement), plan.original);
  }

  lemma PatchedBytes(mem: Memory, block: int, trampoline: seq<byte>, target: int, jump: seq<byte>, original: seq<byte>)
    requires Free(mem, block, |trampoline|) && Holds(mem, target, original) && |jump| <= |original|
    ensures Overlaid(mem, Write(Write(mem, block, trampoline), target, jump + original[|jump|..]), target, jump)
  {}

  lemma TwoHooks(mem: Memory, once: Memory, twice: Memory, record: Record, record': Record, target: int,
                 jump: seq<byte>)
    requires Hooked(mem, record, once) && Hooked(once, record', twice) && TargetsInside([record, record'], mem.Keys)
    requires record.target == target && record'.target == target && |jump| <= |record'.originalBytes|
    requires Overlaid(mem, once, target, jump)
    requires Holds(mem, target, record.originalBytes) && Mapped(mem, target, |jump|)
    ensures RemoveAll(twice, [record, record'], AllLand(2)) == mem <==> Holds(mem, target, jump)
  {
    hide RemoveAll, LastSaved;
    var mems, records := [mem, once, twice], [record, record'];
    RemoveAllExact(mems, records);
    forall a | a in mem ensures LastSaved(records, a, mem[a]) == once[a] {
      LastSavedSnoc([record], record', a, mem[a]);
      assert [record] + [record'] == records;
      LastSavedOne(record, a, mem[a]);
    }
    OnceUnchanged(mem, once, target, jump);
  }

  lemma TwoHooksDangle(mem: Memory, once: Memory, twice: Memory, record: Record, record': Record, target: int,
                       jump: seq<byte>)
    requires Hooked(mem, record, once) && Hooked(once, record', twice) && TargetsInside([record, record'], mem.Keys)
    requires record.target == target && record'.target == target
    requires |jump| <= |record.originalBytes| && |jump| <= |record'.originalBytes|
    requires Overlaid(mem, once, target, jump)
    requires Holds(mem, target, record.originalBytes) && Mapped(mem, target, |jump|)
    ensures Safe(RemoveAll(twice, [record, record'], AllLand(2)), record) <==> Holds(mem, target, jump)
  {
    hide RemoveAll, Safe;
    var mems, records := [mem, once, twice], [record, record'];
    D.DanglesExactly(mems, records, AllLand(2), 0);
    assert records[1..] == [record'] && AllLand(2)[1..] == [true];
    forall a | record.Covers(a)
      ensures D.LastLanded([record'], [true], a, record.Saved(a)) != record.Saved(a) <==> once[a] != mem[a]
    {
      OneLanded(mem, once, twice, record, record', a);
    }
    OnceUnchanged(mem, once, target, jump);
  }

  // What two hooks on one target leave at an address of the first, every write landing, is what the second one saved.
  lemma OneLanded(mem: Memory, once: Memory, twice: Memory, record: Record, record': Record, a: int)
    requires Hooked(mem, record, once) && Hooked(once, record', twice) && record.Covers(a)
    requires a in once && (!record'.Covers(a) ==> once[a] == mem[a])
    ensures D.LastLanded([record'], [true], a, record.Saved(a)) == once[a] && record.Saved(a) == mem[a]
  {
    assert [record'][1..] == [] && [true][1..] == [];
  }

  lemma LastSavedOne(record: Record, a: int, otherwise: byte)
    ensures LastSaved([record], a, otherwise) == if record.Covers(a) then record.Saved(a) else otherwise
  {
    LastSavedSnoc([], record, a, otherwise);
    assert [] + [record] == [record];
  }

  lemma OnceUnchanged(mem: Memory, once: Memory, target: int, jump: seq<byte>)
    requires Mapped(mem, target, |jump|)
    requires Overlaid(mem, once, target, jump)
    ensures (forall a :: a in mem ==> once[a] == mem[a]) <==> Holds(mem, target, jump)
  {
    if forall a :: a in mem ==> once[a] == mem[a] {
      forall a | target <= a < target + |jump| ensures mem[a] == jump[a - target] {
        assert once[a] == mem[a];
      }
    }
  }

  // ---- Any number of hooks at once

  datatype Hook = Hook(target: nat, replacement: nat, env: Environment)

  ghost predicate Installed(arch: Arch, before: Memory, hook: Hook, record: Record, after: Memory)
    requires arch.Lawful()
  {
    && Honest(before, hook.env) && hook.replacement < UINT64_LIMIT
    && Install(arch, before, hook.target, hook.replacement, hook.env) == Some((after, record))
  }

  // A run of successful installs, and the memories it went through.
  ghost predicate Installs(arch: Arch, mems: seq<Memory>, hooks: seq<Hook>, records: seq<Record>)
    requires arch.Lawful()
  {
    && |mems| == |records| + 1 == |hooks| + 1
    && forall i :: 0 <= i < |hooks| ==> Installed(arch, mems[i], hooks[i], records[i], mems[i + 1])
  }

  lemma InstallsHistory(arch: Arch, mems: seq<Memory>, hooks: seq<Hook>, records: seq<Record>)
    requires arch.Lawful() && Installs(arch, mems, hooks, records)
    ensures History(mems, records)
  {
    hide Arch.Lawful, Install, Hooked, Honest;
    forall i | 0 <= i < |records|
      ensures Hooked(mems[i], records[i], mems[i + 1])
    {
      assert Installed(arch, mems[i], hooks[i], records[i], mems[i + 1]);
      InstallHooks(arch, mems[i], hooks[i].target, hooks[i].replacement, hooks[i].env);
    }
  }

  // A byte no hook covers between two moments keeps its value.
  lemma {:induction false} BytePersists(mems: seq<Memory>, records: seq<Record>, i: nat, j: nat, a: int)
    requires History(mems, records) && i <= j <= |records| && a in mems[i]
    requires forall m :: i <= m < j ==> !records[m].Covers(a)
    ensures a in mems[j] && mems[j][a] == mems[i][a]
    decreases j - i
  {
    hide Record.Covers, Record.Holds;
    if i < j {
      assert Hooked(mems[i], records[i], mems[i + 1]) && !records[i].Covers(a);
      BytePersists(mems, records, i + 1, j, a);
    }
  }

  lemma BytesPersist(mems: seq<Memory>, records: seq<Record>, i: nat, j: nat, at: int, bytes: seq<byte>)
    requires History(mems, records) && i <= j <= |records| && Holds(mems[i], at, bytes)
    requires forall a, m :: at <= a < at + |bytes| && i <= m < j ==> !records[m].Covers(a)
    ensures Holds(mems[j], at, bytes)
  {
    hide Hooked, Record.Covers;
    forall a | at <= a < at + |bytes|
      ensures a in mems[j] && mems[j][a] == bytes[a - at]
    {
      BytePersists(mems, records, i, j, a);
    }
  }

  // With disjoint targets a hook displaces pristine bytes.
  lemma DisplacesPristine(mems: seq<Memory>, records: seq<Record>, k: nat)
    requires History(mems, records) && TargetsInside(records, mems[0].Keys) && DisjointTargets(records) && k < |records|
    ensures Holds(mems[0], records[k].target, records[k].originalBytes)
  {
    var record := records[k];
    assert Hooked(mems[k], record, mems[k + 1]);
    forall a | record.target <= a < record.target + |record.originalBytes|
      ensures a in mems[0] && mems[0][a] == record.originalBytes[a - record.target]
    {
      assert record.Covers(a);
      BytePersists(mems, records, 0, k, a);
    }
  }

  // What a hook wrote, over its target or into its block, outlasts the hooks after it.
  lemma HookPersists(mems: seq<Memory>, records: seq<Record>, k: nat, at: int, bytes: seq<byte>)
    requires History(mems, records) && TargetsInside(records, mems[0].Keys) && DisjointTargets(records) && k < |records|
    requires Holds(mems[k + 1], at, bytes)
    requires forall a :: at <= a < at + |bytes| ==> records[k].Covers(a) || records[k].Holds(a)
    ensures Holds(mems[|records|], at, bytes)
  {
    hide Hooked, Record.Covers, Record.Holds;
    forall a, m | at <= a < at + |bytes| && k + 1 <= m < |records|
      ensures !records[m].Covers(a)
    {
      if records[k].Holds(a) {
        BlockIsNoTarget(mems, records, k, a);
      }
    }
    BytesPersist(mems, records, k + 1, |records|, at, bytes);
  }

  // What one install leaves in memory, by address.
  lemma InstallWrites(arch: Arch, mem: Memory, hook: Hook, record: Record, after: Memory) returns (plan: Plan)
    requires arch.Lawful() && Installed(arch, mem, hook, record, after)
    ensures PlanHolds(arch, mem, hook.target, plan) && Measure(arch, mem, hook.target, 0) == Some(plan.instrs)
    ensures record == Record(hook.target, plan.original, plan.block, |plan.original| + arch.jumpSize)
    ensures var n := TotalLength(plan.instrs);
      && arch.jumpSize <= |plan.original| == |plan.moved| == n
      && |arch.jump(hook.replacement)| == |arch.jump(hook.target + n)| == arch.jumpSize
      && Holds(after, hook.target, arch.jump(hook.replacement))
      && Holds(after, plan.block, plan.moved) && Holds(after, plan.block + n, arch.jump(hook.target + n))
  {
    hide Arch.Lawful, Install, Holds, Patched, Honest, Free, Consists, TotalLength;
    plan := InstallPatches(arch, mem, hook.target, hook.replacement, hook.env);
    JumpSized(arch, hook.replacement);
    JumpSized(arch, hook.target + TotalLength(plan.instrs));
    TargetHeld(arch, mem, hook.target, hook.replacement, plan);
    JumpBackHeld(arch, mem, hook.target, hook.replacement, plan);
  }

  // After any number of installs on disjoint targets every hook works in the memory they all left: its target
  // reaches its replacement, and its trampoline does what the target did before any hook.
  lemma ManyHooksWork<S>(arch: Arch, mems: seq<Memory>, hooks: seq<Hook>, records: seq<Record>, k: nat,
                         state: S, exec: (Effect, S) -> Next<S>) returns (n: nat)
    requires arch.Lawful() && Installs(arch, mems, hooks, records) && UserSpace(mems[0]) && k < |hooks|
    requires TargetsInside(records, mems[0].Keys) && DisjointTargets(records)
    ensures Measure(arch, mems[k], hooks[k].target, 0).Some? && n == |Measure(arch, mems[k], hooks[k].target, 0).value|
    ensures TotalLength(Measure(arch, mems[k], hooks[k].target, 0).value) == |records[k].originalBytes| >= arch.jumpSize
    ensures var now := mems[|hooks|];
      && FollowJump(arch, now, At(hooks[k].target, state)) == At(hooks[k].replacement, state)
      && FollowJump(arch, now, Run(arch, now, records[k].trampoline, n, state, exec))
           == Run(arch, mems[0], hooks[k].target, n, state, exec)
  {
    hide Arch.Lawful, Install, PlanHolds, UserSpace, Honest, Hooked, Holds, FollowJump, Run, Twins, Measure, TotalLength;
    hide TargetsInside, DisjointTargets, History;
    var hook, record, now := hooks[k], records[k], mems[|hooks|];
    InstallsHistory(arch, mems, hooks, records);
    assert Installed(arch, mems[k], hook, record, mems[k + 1]);
    var plan := InstallWrites(arch, mems[k], hook, record, mems[k + 1]);
    n := |plan.instrs|;
    DisplacesPristine(mems, records, k);
    HookPersists(mems, records, k, hook.target, arch.jump(hook.replacement));
    JumpIsFollowed(arch, now, hook.target, hook.replacement, state);
    var length := TotalLength(plan.instrs);
    HookPersists(mems, records, k, plan.block, plan.moved);
    HookPersists(mems, records, k, plan.block + length, arch.jump(hook.target + length));
    TwinsAnywhere(arch, mems[k], hook.target, plan, mems[0], now);
    TwinsRunAlike(arch, mems[0], hook.target, plan.original, now, plan.block, plan.moved, plan.instrs, state, exec);
  }
}
