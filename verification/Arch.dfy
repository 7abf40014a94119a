// The per-architecture interface of the inline hooker (src/inline_hook_arch.h), the laws an implementation of
// it owes its caller, and the proof that both implementations keep them.

module Arch {
  import opened Bytes
  import opened Wrappers
  import opened Instructions

  datatype Arch = Arch(
    decode: seq<byte> -> Option<Instruction>,
    // The absolute address or page the PC-relative operand of an instruction at an address denotes.
    operand: (int, seq<byte>, Instruction) -> Option<int>,
    // The instruction with the PC-relative field blanked.
    shape: (seq<byte>, Instruction) -> seq<byte>,
    relocate: (int, int, seq<byte>, Instruction) -> Option<seq<byte>>,
    jumpSize: nat,
    jump: nat -> seq<byte>,
    // Where the pointer of the absolute jump at an address is fetched from, if the code is such a jump.
    jumpPointer: (int, seq<byte>) -> Option<int>)
  {
    // `bytes` is exactly one instruction that install() agrees to displace.
    predicate Movable(bytes: seq<byte>, ins: Instruction) {
      |bytes| == ins.length && decode(bytes) == Some(ins) && !ins.relativeBranch
    }

    ghost predicate Lawful() {
      match this
      case Arch(_, _, _, _, _, _, _) => SizesLawful() && DecodeLocal() && RelocateLawful() && JumpLawful()
    }

    ghost predicate SizesLawful() {
      8 <= jumpSize <= 16 &&
      forall bytes, ins :: Movable(bytes, ins) ==> 1 <= ins.length <= 16
    }

    // Decoding looks at the instruction only, never at what follows it.
    ghost predicate DecodeLocal() {
      forall code, ins: Instruction {:trigger decode(code[..ins.length])} ::
        ins.length <= |code| ==> (decode(code) == Some(ins) <==> decode(code[..ins.length]) == Some(ins))
    }

    // A relocated instruction is the same instruction: it decodes alike, its operand denotes the same absolute
    // address, only the operand field differs, and moving it back restores it.
    ghost predicate RelocateLawful() {
      forall from, to, bytes, ins {:trigger relocate(from, to, bytes, ins)} ::
        Movable(bytes, ins) && relocate(from, to, bytes, ins).Some? ==>
          var r := relocate(from, to, bytes, ins).value;
          && Movable(r, ins)
          && operand(to, r, ins) == operand(from, bytes, ins)
          && shape(r, ins) == shape(bytes, ins)
          && relocate(to, from, r, ins) == Some(bytes)
    }

    // The jump fetches its target from its own last eight bytes.
    ghost predicate JumpLawful() {
      && jumpSize >= 8 && (forall to :: |jump(to)| == jumpSize)
      && (forall pc: int, to: nat, code {:trigger jump(to), jumpPointer(pc, code)} ::
           to < UINT64_LIMIT && jump(to) <= code ==>
             && jumpPointer(pc, code) == Some(pc + jumpSize - 8)
             && FromLittleEndian(code[jumpSize - 8..jumpSize]) == to)
    }
  }
}

module ArchLaws {
  import opened Bytes
  import opened Wrappers
  import opened Instructions
  import opened Arch

  lemma JumpSized(arch: Arch, to: nat)
    requires arch.Lawful()
    ensures |arch.jump(to)| == arch.jumpSize >= 8
  {}

  lemma RelocatedSized(arch: Arch, from: int, to: int, bytes: seq<byte>, ins: Instruction)
    requires arch.Lawful() && arch.Movable(bytes, ins) && arch.relocate(from, to, bytes, ins).Some?
    ensures |arch.relocate(from, to, bytes, ins).value| == ins.length
  {}
}

module X86Arch {
  import opened Bytes
  import opened Wrappers
  import opened Instructions
  import opened Arch
  import D = X86Decoder
  import X = X86Relocation

  predicate OperandInside(bytes: seq<byte>, ins: Instruction) {
    ins.ripRelative ==> ins.displacementOffset + 4 <= |bytes|
  }

  // FF with reg 100 is an indirect jump; mod 00 with rm 101 says that its pointer is RIP-relative.
  function JumpPointer(pc: int, code: seq<byte>): Option<int> {
    if |code| >= 6 && code[0] == 0xFF && code[1] / 64 == 0 && code[1] / 8 % 8 == 4 && code[1] % 8 == 5 then
      Some(pc + 6 + ReadInt32(code[2..6]))
    else None
  }

  const X86_64: Arch := Arch(
    D.Decode,
    (at: int, bytes: seq<byte>, ins: Instruction) => if OperandInside(bytes, ins) then X.Operand(at, bytes, ins) else None,
    (bytes: seq<byte>, ins: Instruction) => if OperandInside(bytes, ins) then X.Shape(bytes, ins) else bytes,
    (from: int, to: int, bytes: seq<byte>, ins: Instruction) =>
      if OperandInside(bytes, ins) then X.Relocate(from, to, bytes, ins) else None,
    X.JUMP_SIZE,
    X.Jump,
    JumpPointer)

  lemma SizesLawful()
    ensures X86_64.SizesLawful()
  {
    forall bytes, ins | X86_64.Movable(bytes, ins) ensures 1 <= ins.length <= 16 {
      var head := X.DecodeLocal(bytes, ins);
    }
  }

  lemma SameUpToLength(code: seq<byte>, ins: Instruction)
    requires ins.length <= |code|
    ensures D.Decode(code) == Some(ins) <==> D.Decode(code[..ins.length]) == Some(ins)
  {
    hide D.Decode;
    if D.Decode(code) == Some(ins) {
      var head := X.DecodeLocal(code, ins);
      assert code[..ins.length][..head] == code[..head];
    }
    if D.Decode(code[..ins.length]) == Some(ins) {
      var head := X.DecodeLocal(code[..ins.length], ins);
      assert code[..ins.length][..head] == code[..head];
    }
  }

  lemma DecodeLocal()
    ensures X86_64.DecodeLocal()
  {
    hide D.Decode;
    forall code, ins: Instruction | ins.length <= |code|
      ensures X86_64.decode(code) == Some(ins) <==> X86_64.decode(code[..ins.length]) == Some(ins)
    {
      SameUpToLength(code, ins);
    }
  }

  lemma RelocateLawful()
    ensures X86_64.RelocateLawful()
  {
    forall from, to, bytes, ins | X86_64.Movable(bytes, ins) && X86_64.relocate(from, to, bytes, ins).Some?
      ensures var r := X86_64.relocate(from, to, bytes, ins).value;
        && X86_64.Movable(r, ins)
        && X86_64.operand(to, r, ins) == X86_64.operand(from, bytes, ins)
        && X86_64.shape(r, ins) == X86_64.shape(bytes, ins)
        && X86_64.relocate(to, from, r, ins) == Some(bytes)
    {
      X.RelocateExact(from, to, bytes, ins);
    }
  }

  lemma JumpHolds(pc: int, to: nat, code: seq<byte>)
    requires to < UINT64_LIMIT && X.Jump(to) <= code
    ensures JumpPointer(pc, code) == Some(pc + 6) && FromLittleEndian(code[6..14]) == to
  {
    X.JumpReadsBack(pc, to, code[14..]);
    assert code[6..14] == X.Jump(to)[6..];
    assert code[2..6] == X.Jump(to)[..6][2..6];
  }

  lemma JumpLawful()
    ensures X86_64.JumpLawful()
  {
    hide JumpPointer, FromLittleEndian, LittleEndian;
    forall pc: int, to: nat, code: seq<byte> | to < UINT64_LIMIT && X86_64.jump(to) <= code
      ensures X86_64.jumpPointer(pc, code) == Some(pc + 6) && FromLittleEndian(code[6..14]) == to
    {
      JumpHolds(pc, to, code);
    }
  }

  lemma Lawful()
    ensures X86_64.Lawful()
  {
    SizesLawful();
    DecodeLocal();
    RelocateLawful();
    JumpLawful();
  }
}

module Aarch64Arch {
  import opened Bytes
  import opened Wrappers
  import opened Instructions
  import opened Arch
  import A = Arm64
  import W = Arm64Word
  import E = Arm64Encoding

  // A 64-bit literal load, then a branch to the register it loaded.
  function JumpPointer(pc: int, code: seq<byte>): Option<int> {
    if |code| < 8 then None
    else
      var load, branch := A.Word(code), A.Word(code[4..]);
      if E.IsLiteralLoad64(load) && E.IsBranchRegister(branch) && E.BranchRegister(branch) == W.Low(load) then
        A.WordOperand(pc, load)
      else None
  }

  const AARCH64: Arch := Arch(
    A.Decode,
    (at: int, bytes: seq<byte>, ins: Instruction) => if |bytes| == 4 then A.Operand(at, bytes) else None,
    (bytes: seq<byte>, ins: Instruction) => if |bytes| == 4 then A.Shape(bytes) else bytes,
    (from: int, to: int, bytes: seq<byte>, ins: Instruction) =>
      if |bytes| == 4 then A.Relocate(from, to, bytes) else None,
    A.JUMP_SIZE,
    A.Jump,
    JumpPointer)

  lemma DecodeLawful()
    ensures AARCH64.SizesLawful() && AARCH64.DecodeLocal()
  {
    forall code, ins: Instruction | ins.length <= |code|
      ensures AARCH64.decode(code) == Some(ins) <==> AARCH64.decode(code[..ins.length]) == Some(ins)
    {
      if ins.length == 4 {
        assert code[..4][..4] == code[..4];
      }
    }
  }

  lemma RelocateLawful()
    ensures AARCH64.RelocateLawful()
  {
    forall from, to, bytes, ins | AARCH64.Movable(bytes, ins) && AARCH64.relocate(from, to, bytes, ins).Some?
      ensures var r := AARCH64.relocate(from, to, bytes, ins).value;
        && AARCH64.Movable(r, ins)
        && AARCH64.operand(to, r, ins) == AARCH64.operand(from, bytes, ins)
        && AARCH64.shape(r, ins) == AARCH64.shape(bytes, ins)
        && AARCH64.relocate(to, from, r, ins) == Some(bytes)
    {
      A.RelocateExact(from, to, bytes, ins);
    }
  }

  lemma JumpLawful()
    ensures AARCH64.JumpLawful()
  {
    forall pc: int, to: nat, code: seq<byte> | to < UINT64_LIMIT && AARCH64.jump(to) <= code
      ensures AARCH64.jumpPointer(pc, code) == Some(pc + 8) && FromLittleEndian(code[8..16]) == to
    {
      assert code == A.Jump(to) + code[16..];
      A.JumpReadsBack(pc, to, code[16..]);
    }
  }

  lemma Lawful()
    ensures AARCH64.Lawful()
  {
    DecodeLawful();
    RelocateLawful();
    JumpLawful();
  }
}
