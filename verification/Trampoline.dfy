// What a trampoline has to preserve: a sequence of instructions, what each of them does, and running them.

module Trampoline {
  import opened Bytes
  import opened Wrappers
  import opened Instructions
  import opened Arch
  import opened Memory

  // ---- Instruction sequences on bytes

  function TotalLength(instrs: seq<Instruction>): nat {
    if instrs == [] then 0 else instrs[0].length + TotalLength(instrs[1..])
  }

  // `bytes` is these movable instructions, one after the other.
  predicate Consists(arch: Arch, bytes: seq<byte>, instrs: seq<Instruction>) {
    if instrs == [] then bytes == []
    else
      && instrs[0].length <= |bytes|
      && arch.Movable(bytes[..instrs[0].length], instrs[0])
      && Consists(arch, bytes[instrs[0].length..], instrs[1..])
  }

  // What an instruction does is left opaque. It may depend on its bytes other than the PC-relative field, and
  // on the absolute address that field denotes: on nothing else, in particular not on where it sits.
  datatype Effect = Effect(shape: seq<byte>, operand: Option<int>)

  function EffectOf(arch: Arch, at: int, bytes: seq<byte>, ins: Instruction): Effect {
    Effect(arch.shape(bytes, ins), arch.operand(at, bytes, ins))
  }

  function Effects(arch: Arch, at: int, bytes: seq<byte>, instrs: seq<Instruction>): (effects: seq<Effect>)
    requires Consists(arch, bytes, instrs)
    ensures |effects| == |instrs|
    decreases instrs
  {
    if instrs == [] then []
    else
      var n := instrs[0].length;
      [EffectOf(arch, at, bytes[..n], instrs[0])] + Effects(arch, at + n, bytes[n..], instrs[1..])
  }

  // The relocating loop of install().
  function RelocateAll(arch: Arch, from: int, to: int, bytes: seq<byte>, instrs: seq<Instruction>): Option<seq<byte>>
    requires Consists(arch, bytes, instrs)
    decreases instrs
  {
    if instrs == [] then Some([])
    else
      var n := instrs[0].length;
      match arch.relocate(from, to, bytes[..n], instrs[0])
      case None => None
      case Some(head) =>
        match RelocateAll(arch, from + n, to + n, bytes[n..], instrs[1..])
        case None => None
        case Some(tail) => Some(head + tail)
  }

  lemma ConsistsCons(arch: Arch, at: int, head: seq<byte>, tail: seq<byte>, ins: Instruction, rest: seq<Instruction>)
    requires arch.Movable(head, ins) && Consists(arch, tail, rest)
    ensures Consists(arch, head + tail, [ins] + rest)
    ensures Effects(arch, at, head + tail, [ins] + rest)
      == [EffectOf(arch, at, head, ins)] + Effects(arch, at + ins.length, tail, rest)
  {
    assert (head + tail)[..ins.length] == head && (head + tail)[ins.length..] == tail;
    assert ([ins] + rest)[1..] == rest;
  }

  lemma RelocateAllCons(arch: Arch, from: int, to: int, head: seq<byte>, tail: seq<byte>,
                        ins: Instruction, rest: seq<Instruction>)
    requires arch.Movable(head, ins) && Consists(arch, tail, rest)
    requires Consists(arch, head + tail, [ins] + rest)
    requires arch.relocate(from, to, head, ins).Some?
    requires RelocateAll(arch, from + ins.length, to + ins.length, tail, rest).Some?
    ensures RelocateAll(arch, from, to, head + tail, [ins] + rest) ==
      Some(arch.relocate(from, to, head, ins).value
           + RelocateAll(arch, from + ins.length, to + ins.length, tail, rest).value)
  {
    assert (head + tail)[..ins.length] == head && (head + tail)[ins.length..] == tail;
    assert ([ins] + rest)[1..] == rest;
  }

  predicate Relocated(arch: Arch, from: int, to: int, bytes: seq<byte>, moved: seq<byte>, instrs: seq<Instruction>)
    requires Consists(arch, bytes, instrs)
  {
    && |moved| == |bytes|
    && Consists(arch, moved, instrs)
    && Effects(arch, to, moved, instrs) == Effects(arch, from, bytes, instrs)
    && RelocateAll(arch, to, from, moved, instrs) == Some(bytes)
  }

  lemma RelocatedCons(arch: Arch, from: int, to: int, head: seq<byte>, tail: seq<byte>, moved: seq<byte>,
                      ins: Instruction, rest: seq<Instruction>)
    requires arch.Lawful()
    requires arch.Movable(head, ins) && arch.relocate(from, to, head, ins).Some?
    requires Consists(arch, tail, rest) && Relocated(arch, from + ins.length, to + ins.length, tail, moved, rest)
    ensures Consists(arch, head + tail, [ins] + rest)
    ensures Relocated(arch, from, to, head + tail, arch.relocate(from, to, head, ins).value + moved, [ins] + rest)
  {
    var head' := arch.relocate(from, to, head, ins).value;
    ConsistsCons(arch, from, head, tail, ins, rest);
    ConsistsCons(arch, to, head', moved, ins, rest);
    RelocateAllCons(arch, to, from, head', moved, ins, rest);
  }

  // Relocated code is the same instructions with the same effects, and moving it back restores the bytes.
  lemma {:induction false} RelocateAllKeeps(arch: Arch, from: int, to: int, bytes: seq<byte>, instrs: seq<Instruction>)
    requires arch.Lawful()
    requires Consists(arch, bytes, instrs) && RelocateAll(arch, from, to, bytes, instrs).Some?
    ensures Relocated(arch, from, to, bytes, RelocateAll(arch, from, to, bytes, instrs).value, instrs)
    decreases instrs
  {
    if instrs != [] {
      var ins, rest := instrs[0], instrs[1..];
      var head, tail := bytes[..ins.length], bytes[ins.length..];
      RelocateAllKeeps(arch, from + ins.length, to + ins.length, tail, rest);
      var moved := RelocateAll(arch, from + ins.length, to + ins.length, tail, rest).value;
      RelocatedCons(arch, from, to, head, tail, moved, ins, rest);
      assert [ins] + rest == instrs && head + tail == bytes;
    }
  }

  lemma {:induction false} ConsistsLength(arch: Arch, bytes: seq<byte>, instrs: seq<Instruction>)
    requires Consists(arch, bytes, instrs)
    ensures TotalLength(instrs) == |bytes|
  {
    if instrs != [] {
      ConsistsLength(arch, bytes[instrs[0].length..], instrs[1..]);
    }
  }

  // ---- Instruction sequences in memory

  // The instruction at `pc`; None when it cannot be decoded or is not wholly mapped.
  function Fetch(arch: Arch, mem: Memory, pc: int): (r: Option<Instruction>)
    ensures r.Some? ==> r.value.length > 0 && Mapped(mem, pc, r.value.length)
  {
    var code := Window(mem, pc);
    match arch.decode(code)
    case None => None
    case Some(ins) => if ins.length == 0 || ins.length > |code| then None else Some(ins)
  }

  lemma FetchIsMovable(arch: Arch, mem: Memory, pc: int)
    requires arch.Lawful()
    requires Fetch(arch, mem, pc).Some? && !Fetch(arch, mem, pc).value.relativeBranch
    ensures var ins := Fetch(arch, mem, pc).value; arch.Movable(Read(mem, pc, ins.length), ins)
  {
    var code := Window(mem, pc);
    var ins := Fetch(arch, mem, pc).value;
    HoldsWindow(mem, pc, 0, ins.length);
    HoldsRead(mem, pc, code[..ins.length]);
  }

  lemma FetchFinds(arch: Arch, mem: Memory, pc: int, bytes: seq<byte>, ins: Instruction)
    requires arch.Lawful()
    requires arch.Movable(bytes, ins) && Holds(mem, pc, bytes)
    ensures Fetch(arch, mem, pc) == Some(ins)
  {
    HoldsPrefix(mem, pc, bytes);
    var code := Window(mem, pc);
    assert code[..ins.length] == bytes;
  }

  // The measuring loop of install(): whole instructions from `code + displaced` until the jump fits.
  function Measure(arch: Arch, mem: Memory, code: int, displaced: nat): Option<seq<Instruction>>
    decreases arch.jumpSize - displaced
  {
    if displaced >= arch.jumpSize then Some([])
    else
      match Fetch(arch, mem, code + displaced)
      case None => None
      case Some(ins) =>
        if ins.relativeBranch then None
        else
          match Measure(arch, mem, code, displaced + ins.length)
          case None => None
          case Some(rest) => Some([ins] + rest)
  }

  // `instrs` are movable, lie wholly in memory at `at`, and take up `least` bytes or a little more.
  predicate Measured(arch: Arch, mem: Memory, at: int, least: int, instrs: seq<Instruction>) {
    var n := TotalLength(instrs);
    && least <= n && (least > 0 ==> n < least + 16)
    && Mapped(mem, at, n) && Consists(arch, Read(mem, at, n), instrs)
  }

  lemma MeasuredCons(arch: Arch, mem: Memory, at: int, least: int, ins: Instruction, rest: seq<Instruction>)
    requires arch.Lawful() && least > 0
    requires Mapped(mem, at, ins.length) && arch.Movable(Read(mem, at, ins.length), ins)
    requires Measured(arch, mem, at + ins.length, least - ins.length, rest)
    requires least <= ins.length ==> rest == []
    ensures Measured(arch, mem, at, least, [ins] + rest)
  {
    hide Arch.Lawful, Arch.Movable, Consists, Read, Holds, Effects;
    var n := TotalLength(rest);
    var head, tail := Read(mem, at, ins.length), Read(mem, at + ins.length, n);
    MovableSized(arch, head, ins);
    assert ([ins] + rest)[1..] == rest;
    assert |head + tail| == TotalLength([ins] + rest) == ins.length + n;
    ConsistsCons(arch, at, head, tail, ins, rest);
    HoldsRead(mem, at, head);
    HoldsRead(mem, at + ins.length, tail);
    HoldsJoin(mem, at, head, tail);
    HoldsRead(mem, at, head + tail);
  }

  lemma MovableSized(arch: Arch, bytes: seq<byte>, ins: Instruction)
    requires arch.Lawful() && arch.Movable(bytes, ins)
    ensures 1 <= ins.length <= 16
  {}

  lemma {:induction false} MeasureIsMeasured(arch: Arch, mem: Memory, code: int, displaced: nat)
    requires arch.Lawful()
    requires Measure(arch, mem, code, displaced).Some?
    ensures Measured(arch, mem, code + displaced, arch.jumpSize - displaced, Measure(arch, mem, code, displaced).value)
    ensures displaced >= arch.jumpSize ==> Measure(arch, mem, code, displaced).value == []
    decreases arch.jumpSize - displaced
  {
    hide Arch.Lawful, Fetch;
    if displaced < arch.jumpSize {
      var ins := Fetch(arch, mem, code + displaced).value;
      var next := displaced + ins.length;
      var rest := Measure(arch, mem, code, next).value;
      MeasureIsMeasured(arch, mem, code, next);
      FetchIsMovable(arch, mem, code + displaced);
      assert code + next == code + displaced + ins.length;
      assert arch.jumpSize - next == arch.jumpSize - displaced - ins.length;
      MeasuredCons(arch, mem, code + displaced, arch.jumpSize - displaced, ins, rest);
    }
  }

  // ---- Running

  // An instruction either falls through to the next one or leaves for an absolute address.
  datatype Next<S> = FallThrough(state: S) | Leave(state: S, pc: int)

  datatype Outcome<S> = At(pc: int, state: S) | Left(pc: int, state: S) | Stuck

  // Executes `n` instructions from `pc`, given what an effect does to the machine state.
  function Run<S>(arch: Arch, mem: Memory, pc: int, n: nat, state: S, exec: (Effect, S) -> Next<S>): Outcome<S>
    decreases n
  {
    if n == 0 then At(pc, state)
    else
      match Fetch(arch, mem, pc)
      case None => Stuck
      case Some(ins) =>
        match exec(EffectOf(arch, pc, Read(mem, pc, ins.length), ins), state)
        case Leave(next, to) => Left(to, next)
        case FallThrough(next) => Run(arch, mem, pc + ins.length, n - 1, next, exec)
  }

  // The same run, on the effects alone.
  function RunEffects<S>(pc: int, instrs: seq<Instruction>, effects: seq<Effect>, state: S,
                         exec: (Effect, S) -> Next<S>): Outcome<S>
    requires |instrs| == |effects|
    decreases instrs
  {
    if effects == [] then At(pc, state)
    else
      match exec(effects[0], state)
      case Leave(next, to) => Left(to, next)
      case FallThrough(next) => RunEffects(pc + instrs[0].length, instrs[1..], effects[1..], next, exec)
  }

  // Fetching at `pc` and at each following address finds exactly these instructions.
  predicate Fetches(arch: Arch, mem: Memory, pc: int, instrs: seq<Instruction>)
    decreases instrs
  {
    instrs != [] ==>
      && Fetch(arch, mem, pc) == Some(instrs[0])
      && Fetches(arch, mem, pc + instrs[0].length, instrs[1..])
  }

  lemma {:induction false} ConsistsFetches(arch: Arch, mem: Memory, pc: int, bytes: seq<byte>, instrs: seq<Instruction>)
    requires arch.Lawful()
    requires Consists(arch, bytes, instrs)
    requires Holds(mem, pc, bytes)
    ensures Fetches(arch, mem, pc, instrs)
    decreases instrs
  {
    if instrs != [] {
      var n := instrs[0].length;
      assert bytes == bytes[..n] + bytes[n..];
      HoldsJoin(mem, pc, bytes[..n], bytes[n..]);
      FetchFinds(arch, mem, pc, bytes[..n], instrs[0]);
      ConsistsFetches(arch, mem, pc + n, bytes[n..], instrs[1..]);
    }
  }

  // The effects of these instructions, read from memory.
  function MemoryEffects(arch: Arch, mem: Memory, pc: int, instrs: seq<Instruction>): (effects: seq<Effect>)
    requires Fetches(arch, mem, pc, instrs)
    ensures |effects| == |instrs|
    decreases instrs
  {
    if instrs == [] then []
    else
      var n := instrs[0].length;
      [EffectOf(arch, pc, Read(mem, pc, n), instrs[0])] + MemoryEffects(arch, mem, pc + n, instrs[1..])
  }

  lemma {:induction false} MemoryEffectsAre(arch: Arch, mem: Memory, pc: int, bytes: seq<byte>, instrs: seq<Instruction>)
    requires Fetches(arch, mem, pc, instrs) && Consists(arch, bytes, instrs) && Holds(mem, pc, bytes)
    ensures MemoryEffects(arch, mem, pc, instrs) == Effects(arch, pc, bytes, instrs)
    decreases instrs
  {
    if instrs != [] {
      var n := instrs[0].length;
      assert bytes == bytes[..n] + bytes[n..];
      HoldsJoin(mem, pc, bytes[..n], bytes[n..]);
      HoldsRead(mem, pc, bytes[..n]);
      MemoryEffectsAre(arch, mem, pc + n, bytes[n..], instrs[1..]);
    }
  }

  lemma {:induction false} RunIsRunEffects<S>(arch: Arch, mem: Memory, pc: int, instrs: seq<Instruction>,
                                              state: S, exec: (Effect, S) -> Next<S>)
    requires Fetches(arch, mem, pc, instrs)
    ensures Run(arch, mem, pc, |instrs|, state, exec)
      == RunEffects(pc, instrs, MemoryEffects(arch, mem, pc, instrs), state, exec)
    decreases instrs
  {
    hide MemoryEffects, Fetch, EffectOf, Read;
    if instrs != [] {
      var n := instrs[0].length;
      MemoryEffectsSplit(arch, mem, pc, instrs);
      match exec(MemoryEffects(arch, mem, pc, instrs)[0], state)
      case Leave(next, to) =>
      case FallThrough(next) => RunIsRunEffects(arch, mem, pc + n, instrs[1..], next, exec);
    }
  }

  // The effect of the first instruction, then those of the others.
  lemma MemoryEffectsSplit(arch: Arch, mem: Memory, pc: int, instrs: seq<Instruction>)
    requires Fetches(arch, mem, pc, instrs) && instrs != []
    ensures var n, effects := instrs[0].length, MemoryEffects(arch, mem, pc, instrs);
      && Mapped(mem, pc, n) && effects[0] == EffectOf(arch, pc, Read(mem, pc, n), instrs[0])
      && effects[1..] == MemoryEffects(arch, mem, pc + n, instrs[1..])
  {
    hide EffectOf, Read, Fetch;
  }

  // Memory holding an instruction sequence runs exactly its effects.
  lemma RunHeld<S>(arch: Arch, mem: Memory, pc: int, bytes: seq<byte>, instrs: seq<Instruction>,
                   state: S, exec: (Effect, S) -> Next<S>)
    requires arch.Lawful()
    requires Consists(arch, bytes, instrs) && Holds(mem, pc, bytes)
    ensures Run(arch, mem, pc, |instrs|, state, exec)
      == RunEffects(pc, instrs, Effects(arch, pc, bytes, instrs), state, exec)
  {
    ConsistsFetches(arch, mem, pc, bytes, instrs);
    MemoryEffectsAre(arch, mem, pc, bytes, instrs);
    RunIsRunEffects(arch, mem, pc, instrs, state, exec);
  }

  // Where the effects start makes no difference, except to the address a run that falls through arrives at.
  lemma {:induction false} RunEffectsFrom<S>(pc: int, other: int, instrs: seq<Instruction>, effects: seq<Effect>,
                                             state: S, exec: (Effect, S) -> Next<S>)
    requires |instrs| == |effects|
    ensures var here := RunEffects(pc, instrs, effects, state, exec);
      var there := RunEffects(other, instrs, effects, state, exec);
      || (here.Left? && there == here)
      || (here.At? && here.pc == pc + TotalLength(instrs) && there == At(other + TotalLength(instrs), here.state))
    decreases effects
  {
    if effects != [] {
      match exec(effects[0], state)
      case Leave(next, to) =>
      case FallThrough(next) =>
        RunEffectsFrom(pc + instrs[0].length, other + instrs[0].length, instrs[1..], effects[1..], next, exec);
    }
  }

  // Follows the absolute jump a run arrived at, through the pointer in memory.
  function FollowJump<S>(arch: Arch, mem: Memory, outcome: Outcome<S>): Outcome<S> {
    match outcome
    case At(pc, state) =>
      (match arch.jumpPointer(pc, Window(mem, pc))
       case None => Stuck
       case Some(at) =>
         if Mapped(mem, at, 8) then At(FromLittleEndian(Read(mem, at, 8)), state) else Stuck)
    case _ => outcome
  }

  lemma JumpIsFollowed<S>(arch: Arch, mem: Memory, pc: int, to: nat, state: S)
    requires arch.Lawful() && to < UINT64_LIMIT
    requires Holds(mem, pc, arch.jump(to))
    ensures FollowJump(arch, mem, At(pc, state)) == At(to, state)
  {
    hide Arch.Lawful, FromLittleEndian, Read, Holds, Window;
    var code := Window(mem, pc);
    HoldsPrefix(mem, pc, arch.jump(to));
    JumpFetches(arch, pc, code, to);
    HoldsWindow(mem, pc, arch.jumpSize - 8, 8);
    assert arch.jumpSize - 8 + 8 == arch.jumpSize && pc + (arch.jumpSize - 8) == pc + arch.jumpSize - 8;
    HoldsRead(mem, pc + arch.jumpSize - 8, code[arch.jumpSize - 8..arch.jumpSize]);
  }

  // The jump law, at one place.
  lemma JumpFetches(arch: Arch, pc: int, code: seq<byte>, to: nat)
    requires arch.Lawful() && to < UINT64_LIMIT && arch.jump(to) <= code
    ensures 8 <= arch.jumpSize <= |code|
    ensures arch.jumpPointer(pc, code) == Some(pc + arch.jumpSize - 8)
    ensures FromLittleEndian(code[arch.jumpSize - 8..arch.jumpSize]) == to
  {
    hide FromLittleEndian;
  }

  // ---- What is measured, exactly

  predicate NoBranch(instrs: seq<Instruction>) {
    forall i :: 0 <= i < |instrs| ==> !instrs[i].relativeBranch
  }

  // The instructions at `at`, up to the first with which they cover `least` bytes; none of them a relative branch.
  ghost predicate Displaces(arch: Arch, mem: Memory, at: int, least: int, instrs: seq<Instruction>) {
    && Fetches(arch, mem, at, instrs) && NoBranch(instrs)
    && TotalLength(instrs) >= least && (instrs != [] ==> TotalLength(instrs[..|instrs| - 1]) < least)
  }

  lemma {:induction false} TotalGrows(instrs: seq<Instruction>)
    requires instrs != []
    ensures TotalLength(instrs[..|instrs| - 1]) <= TotalLength(instrs)
    decreases instrs
  {
    if |instrs| > 1 {
      TotalGrows(instrs[1..]);
      assert instrs[..|instrs| - 1][1..] == instrs[1..][..|instrs| - 2];
    }
  }

  lemma InitLength(ins: Instruction, rest: seq<Instruction>)
    requires rest != []
    ensures TotalLength(([ins] + rest)[..|rest|]) == ins.length + TotalLength(rest[..|rest| - 1])
  {
    assert ([ins] + rest)[..|rest|][1..] == rest[..|rest| - 1];
  }

  lemma DisplacesMore(arch: Arch, mem: Memory, at: int, least: int, instrs: seq<Instruction>)
    requires least > 0 && instrs != []
    ensures Displaces(arch, mem, at, least, instrs) <==>
      && Fetch(arch, mem, at) == Some(instrs[0]) && !instrs[0].relativeBranch
      && Displaces(arch, mem, at + instrs[0].length, least - instrs[0].length, instrs[1..])
  {
    hide Fetch;
    var rest := instrs[1..];
    assert instrs == [instrs[0]] + rest;
    assert NoBranch(instrs) <==> !instrs[0].relativeBranch && NoBranch(rest) by {
      forall i | 0 <= i < |rest|
        ensures rest[i] == instrs[i + 1]
      {
      }
    }
    if rest != [] {
      InitLength(instrs[0], rest);
    } else {
      assert instrs[..0] == [];
    }
  }

  lemma DisplacesNone(arch: Arch, mem: Memory, at: int, least: int, instrs: seq<Instruction>)
    requires least <= 0
    ensures Displaces(arch, mem, at, least, instrs) <==> instrs == []
  {
    hide Fetches;
    if instrs != [] {
      assert TotalLength(instrs[..|instrs| - 1]) >= 0;
    }
    assert Fetches(arch, mem, at, []) by { FetchesNone(arch, mem, at); }
    assert TotalLength([]) == 0;
  }

  lemma FetchesNone(arch: Arch, mem: Memory, at: int)
    ensures Fetches(arch, mem, at, [])
  {
  }

  lemma {:induction false} MeasureFrom(arch: Arch, mem: Memory, code: int, displaced: nat, instrs: seq<Instruction>)
    ensures Measure(arch, mem, code, displaced) == Some(instrs)
       <==> Displaces(arch, mem, code + displaced, arch.jumpSize - displaced, instrs)
    decreases instrs
  {
    hide Fetch, Displaces;
    if displaced >= arch.jumpSize {
      DisplacesNone(arch, mem, code + displaced, arch.jumpSize - displaced, instrs);
    } else if instrs == [] {
      NothingDisplaces(arch, mem, code + displaced, arch.jumpSize - displaced);
    } else {
      DisplacesMore(arch, mem, code + displaced, arch.jumpSize - displaced, instrs);
      var next := displaced + instrs[0].length;
      MeasureFrom(arch, mem, code, next, instrs[1..]);
      assert code + next == code + displaced + instrs[0].length;
      assert arch.jumpSize - next == arch.jumpSize - displaced - instrs[0].length;
      assert instrs == [instrs[0]] + instrs[1..];
    }
  }

  lemma NothingDisplaces(arch: Arch, mem: Memory, at: int, least: int)
    requires least > 0
    ensures !Displaces(arch, mem, at, least, [])
  {
    assert TotalLength([]) == 0;
  }

  // Measuring succeeds exactly when whole instructions that are no relative branches cover the jump, and with the fewest.
  lemma MeasureExactly(arch: Arch, mem: Memory, target: int, instrs: seq<Instruction>)
    ensures Measure(arch, mem, target, 0) == Some(instrs) <==> Displaces(arch, mem, target, arch.jumpSize, instrs)
  {
    hide Measure, Displaces;
    MeasureFrom(arch, mem, target, 0, instrs);
  }
}
