// The x86-64 length decoder: opcode tables and what `decode` reads off them.

module Instructions {
  // What a decoder reports about the instruction at an address.
  datatype Instruction = Instruction(
    length: nat,
    relativeBranch: bool,
    ripRelative: bool,
    displacementOffset: nat,
    immediateSize: nat)
}

module X86Tables {
  import opened Bytes

  // How the bytes after an opcode are laid out.
  datatype Kind =
    | Invalid
    | Plain
    | ModRM | ModRMImm8 | ModRMImmZ
    | Imm8 | ImmZ | Imm16
    | Rel8 | Rel32
    | MovImm
    | GroupF6 | GroupF7

  function PrimaryKind(op: byte): Kind {
    if op < 0x40 then
      (if op % 8 < 4 then ModRM else if op % 8 == 4 then Imm8 else if op % 8 == 5 then ImmZ else Invalid)
    else if op < 0x80 then
      (if 0x50 <= op <= 0x5F then Plain
       else if op == 0x63 then ModRM
       else if op == 0x68 then ImmZ
       else if op == 0x69 then ModRMImmZ
       else if op == 0x6A then Imm8
       else if op == 0x6B then ModRMImm8
       else if 0x70 <= op then Rel8
       else Invalid)
    else if op < 0xC0 then
      (if op == 0x80 || op == 0x83 then ModRMImm8
       else if op == 0x81 then ModRMImmZ
       else if 0x84 <= op <= 0x8B || op == 0x8D || op == 0x8F then ModRM
       else if 0x90 <= op <= 0x99 || op == 0x9C || op == 0x9D then Plain
       else if op == 0xA8 || 0xB0 <= op <= 0xB7 then Imm8
       else if op == 0xA9 then ImmZ
       else if 0xB8 <= op then MovImm
       else Invalid)
    else
      (if op == 0xC0 || op == 0xC1 || op == 0xC6 then ModRMImm8
       else if op == 0xC2 then Imm16
       else if op == 0xC7 then ModRMImmZ
       else if op == 0xC3 || op == 0xC9 || op == 0xCC || op == 0xF4 then Plain
       else if 0xD0 <= op <= 0xD3 || op == 0xFE || op == 0xFF then ModRM
       else if op == 0xE8 || op == 0xE9 then Rel32
       else if op == 0xEB then Rel8
       else if op == 0xF6 then GroupF6
       else if op == 0xF7 then GroupF7
       else Invalid)
  }

  function SecondaryKind(op: byte): Kind {
    if op < 0x80 then
      (if op == 0x05 || op == 0x0B then Plain
       else if 0x10 <= op <= 0x1F || 0x28 <= op <= 0x2F || 0x40 <= op <= 0x4F || 0x51 <= op <= 0x6F then ModRM
       else if 0x70 <= op <= 0x73 then ModRMImm8
       else if 0x74 <= op then ModRM
       else Invalid)
    else if op < 0xB0 then
      (if op <= 0x8F then Rel32
       else if op <= 0x9F then ModRM
       else if op == 0xA2 then Plain
       else if op == 0xA4 || op == 0xAC then ModRMImm8
       else if op == 0xA3 || op == 0xA5 || op == 0xAB || 0xAD <= op then ModRM
       else Invalid)
    else
      (if op == 0xBA || op == 0xC2 then ModRMImm8
       else if op == 0xB2 || op == 0xB8 || op == 0xB9 || 0xC7 <= op <= 0xCF || op == 0xFF then Invalid
       else ModRM)
  }

  method Fill(table: array<Kind>, from: nat, to: nat, kind: Kind)
    requires from <= to < table.Length
    modifies table
    ensures forall i :: 0 <= i < table.Length ==> table[i] == if from <= i <= to then kind else old(table[i])
  {
    var i := from;
    while i <= to
      invariant from <= i <= to + 1
      invariant forall j :: 0 <= j < table.Length ==> table[j] == if from <= j < i then kind else old(table[j])
    {
      table[i] := kind;
      i := i + 1;
    }
  }

  // The table holds the primary map on [from, to) and was not touched elsewhere.
  twostate predicate FilledPrimary(table: array<Kind>, from: nat, to: nat)
    requires table.Length == 256 && to <= 256
    reads table
  {
    forall i :: 0 <= i < 256 ==> table[i] == if from <= i < to then PrimaryKind(i) else old(table[i])
  }

  twostate predicate FilledSecondary(table: array<Kind>, from: nat, to: nat)
    requires table.Length == 256 && to <= 256
    reads table
  {
    forall i :: 0 <= i < 256 ==> table[i] == if from <= i < to then SecondaryKind(i) else old(table[i])
  }

  ghost predicate Blank(table: array<Kind>, from: nat, to: nat)
    requires table.Length == 256 && to <= 256
    reads table
  {
    forall i :: from <= i < to ==> table[i] == Invalid
  }

  method FillAluGroup(table: array<Kind>, base: nat)
    requires table.Length == 256 && base <= 0x38 && base % 8 == 0 && Blank(table, base, base + 8)
    modifies table
    ensures FilledPrimary(table, base, base + 8)
  {
    assert forall i :: base <= i < base + 8 ==> i % 8 == i - base;
    Fill(table, base, base + 3, ModRM);
    table[base + 4] := Imm8;
    table[base + 5] := ImmZ;
  }

  // Opcodes 00 to 3F, eight at a time.
  method FillAlu(table: array<Kind>)
    requires table.Length == 256 && Blank(table, 0, 0x40)
    modifies table
    ensures FilledPrimary(table, 0, 0x40)
  {
    var base := 0;
    while base <= 0x38
      invariant 0 <= base <= 0x40 && base % 8 == 0
      invariant FilledPrimary(table, 0, base)
    {
      FillAluGroup(table, base);
      base := base + 8;
    }
    table[0x0F] := Invalid;
  }

  method FillPrimary40(table: array<Kind>)
    requires table.Length == 256 && Blank(table, 0x40, 0x80)
    modifies table
    ensures FilledPrimary(table, 0x40, 0x80)
  {
    Fill(table, 0x50, 0x5F, Plain);
    table[0x63] := ModRM;
    table[0x68] := ImmZ;
    table[0x69] := ModRMImmZ;
    table[0x6A] := Imm8;
    table[0x6B] := ModRMImm8;
    Fill(table, 0x70, 0x7F, Rel8);
  }

  method FillPrimary80(table: array<Kind>)
    requires table.Length == 256 && Blank(table, 0x80, 0xC0)
    modifies table
    ensures FilledPrimary(table, 0x80, 0xC0)
  {
    FillPrimary80To8F(table);
    FillPrimary90ToBF(table);
  }

  method FillPrimary80To8F(table: array<Kind>)
    requires table.Length == 256 && Blank(table, 0x80, 0x90)
    modifies table
    ensures FilledPrimary(table, 0x80, 0x90)
  {
    table[0x80] := ModRMImm8;
    table[0x81] := ModRMImmZ;
    table[0x83] := ModRMImm8;
    Fill(table, 0x84, 0x8B, ModRM);
    table[0x8D] := ModRM;
    table[0x8F] := ModRM;
  }

  method FillPrimary90ToBF(table: array<Kind>)
    requires table.Length == 256 && Blank(table, 0x90, 0xC0)
    modifies table
    ensures FilledPrimary(table, 0x90, 0xC0)
  {
    Fill(table, 0x90, 0x97, Plain);
    table[0x98] := Plain;
    table[0x99] := Plain;
    table[0x9C] := Plain;
    table[0x9D] := Plain;
    table[0xA8] := Imm8;
    table[0xA9] := ImmZ;
    Fill(table, 0xB0, 0xB7, Imm8);
    Fill(table, 0xB8, 0xBF, MovImm);
  }

  method FillPrimaryC0(table: array<Kind>)
    requires table.Length == 256 && Blank(table, 0xC0, 0x100)
    modifies table
    ensures FilledPrimary(table, 0xC0, 0x100)
  {
    FillPrimaryC0ToCF(table);
    FillPrimaryD0ToFF(table);
  }

  method FillPrimaryC0ToCF(table: array<Kind>)
    requires table.Length == 256 && Blank(table, 0xC0, 0xD0)
    modifies table
    ensures FilledPrimary(table, 0xC0, 0xD0)
  {
    table[0xC0] := ModRMImm8;
    table[0xC1] := ModRMImm8;
    table[0xC2] := Imm16;
    table[0xC3] := Plain;
    table[0xC6] := ModRMImm8;
    table[0xC7] := ModRMImmZ;
    table[0xC9] := Plain;
    table[0xCC] := Plain;
  }

  method FillPrimaryD0ToFF(table: array<Kind>)
    requires table.Length == 256 && Blank(table, 0xD0, 0x100)
    modifies table
    ensures FilledPrimary(table, 0xD0, 0x100)
  {
    Fill(table, 0xD0, 0xD3, ModRM);
    table[0xE8] := Rel32;
    table[0xE9] := Rel32;
    table[0xEB] := Rel8;
    table[0xF4] := Plain;
    table[0xF6] := GroupF6;
    table[0xF7] := GroupF7;
    table[0xFE] := ModRM;
    table[0xFF] := ModRM;
  }

  method FillSecondary00(table: array<Kind>)
    requires table.Length == 256 && Blank(table, 0, 0x80)
    modifies table
    ensures FilledSecondary(table, 0, 0x80)
  {
    FillSecondary00To3F(table);
    FillSecondary40To7F(table);
  }

  method FillSecondary00To3F(table: array<Kind>)
    requires table.Length == 256 && Blank(table, 0, 0x40)
    modifies table
    ensures FilledSecondary(table, 0, 0x40)
  {
    table[0x05] := Plain;
    table[0x0B] := Plain;
    Fill(table, 0x10, 0x17, ModRM);
    Fill(table, 0x18, 0x1F, ModRM);
    Fill(table, 0x28, 0x2F, ModRM);
  }

  method FillSecondary40To7F(table: array<Kind>)
    requires table.Length == 256 && Blank(table, 0x40, 0x80)
    modifies table
    ensures FilledSecondary(table, 0x40, 0x80)
  {
    Fill(table, 0x40, 0x4F, ModRM);
    Fill(table, 0x51, 0x6F, ModRM);
    table[0x70] := ModRMImm8;
    Fill(table, 0x71, 0x73, ModRMImm8);
    Fill(table, 0x74, 0x7F, ModRM);
  }

  method FillSecondary80(table: array<Kind>)
    requires table.Length == 256 && Blank(table, 0x80, 0xB0)
    modifies table
    ensures FilledSecondary(table, 0x80, 0xB0)
  {
    Fill(table, 0x80, 0x8F, Rel32);
    Fill(table, 0x90, 0x9F, ModRM);
    table[0xA2] := Plain;
    table[0xA3] := ModRM;
    table[0xA4] := ModRMImm8;
    table[0xA5] := ModRM;
    table[0xAB] := ModRM;
    table[0xAC] := ModRMImm8;
    table[0xAD] := ModRM;
    table[0xAE] := ModRM;
    table[0xAF] := ModRM;
  }

  method FillSecondaryB0(table: array<Kind>)
    requires table.Length == 256 && Blank(table, 0xB0, 0x100)
    modifies table
    ensures FilledSecondary(table, 0xB0, 0x100)
  {
    Fill(table, 0xB0, 0xB1, ModRM);
    Fill(table, 0xB3, 0xB7, ModRM);
    table[0xBA] := ModRMImm8;
    Fill(table, 0xBB, 0xBF, ModRM);
    Fill(table, 0xC0, 0xC1, ModRM);
    table[0xC2] := ModRMImm8;
    Fill(table, 0xC3, 0xC6, ModRM);
    Fill(table, 0xD0, 0xFE, ModRM);
  }
}

module X86Decoder {
  import opened Bytes
  import opened Wrappers
  import opened Instructions
  import opened X86Tables

  const MAX_LENGTH := 16

  predicate IsLegacyPrefix(b: byte) {
    b == 0x66 || b == 0x67 || b == 0xF0 || b == 0xF2 || b == 0xF3 || b == 0x2E || b == 0x36 || b == 0x3E ||
    b == 0x26 || b == 0x64 || b == 0x65
  }

  // (b & 0xF0) == 0x40
  predicate IsRex(b: byte) {
    b / 16 == 4
  }

  // (b & 0x08) != 0
  predicate HasRexW(b: byte) {
    b / 8 % 2 == 1
  }

  // The ModRM fields: bits 7..6, 5..3 and 2..0.
  function Mod(modrm: byte): int { modrm / 64 }
  function Reg(modrm: byte): int { modrm / 8 % 8 }
  function Rm(modrm: byte): int { modrm % 8 }

  predicate HasModRM(kind: Kind) {
    kind.ModRM? || kind.ModRMImm8? || kind.ModRMImmZ? || kind.GroupF6? || kind.GroupF7?
  }

  predicate IsBranch(kind: Kind) {
    kind.Rel8? || kind.Rel32?
  }

  predicate HasSib(modrm: byte) {
    Mod(modrm) != 3 && Rm(modrm) == 4
  }

  predicate IsRipRelative(modrm: byte) {
    Mod(modrm) == 0 && Rm(modrm) == 5
  }

  function DisplacementSize(modrm: byte, sib: byte): nat {
    if Mod(modrm) == 1 then 1
    else if Mod(modrm) == 2 then 4
    else if IsRipRelative(modrm) then 4
    else if Mod(modrm) == 0 && HasSib(modrm) && sib % 8 == 5 then 4
    else 0
  }

  function ModRMImmediateSize(kind: Kind, modrm: byte, immediateZ: nat): nat {
    match kind
    case GroupF6 => if Reg(modrm) <= 1 then 1 else 0
    case GroupF7 => if Reg(modrm) <= 1 then immediateZ else 0
    case ModRMImm8 => 1
    case ModRMImmZ => immediateZ
    case _ => 0
  }

  function PlainImmediateSize(kind: Kind, rexW: bool, immediateZ: nat): nat {
    match kind
    case Imm8 => 1
    case Imm16 => 2
    case ImmZ => immediateZ
    case MovImm => if rexW then 8 else immediateZ
    case _ => 0
  }

  function PrefixCount(code: seq<byte>): (n: nat)
    ensures n <= |code|
    ensures forall i :: 0 <= i < n ==> IsLegacyPrefix(code[i])
    ensures n < |code| ==> !IsLegacyPrefix(code[n])
  {
    if code == [] || !IsLegacyPrefix(code[0]) then 0 else 1 + PrefixCount(code[1..])
  }

  // Bytes in the opcode, escapes included; 0 when they run out.
  function OpcodeSize(code: seq<byte>): (n: nat)
    ensures n <= |code| && n <= 3
  {
    if code == [] then 0
    else if code[0] != 0x0F then 1
    else if |code| < 2 then 0
    else if code[1] == 0x38 || code[1] == 0x3A then (if |code| < 3 then 0 else 3)
    else 2
  }

  function OpcodeKind(opcode: seq<byte>): Kind
    requires 1 <= |opcode|
  {
    if |opcode| == 1 then PrimaryKind(opcode[0])
    else if |opcode| == 2 then SecondaryKind(opcode[1])
    else if opcode[1] == 0x3A then ModRMImm8
    else ModRM
  }

  // What `decode` makes of the bytes starting at an instruction. None is a refusal; running out of
  // bytes, which no readable function does, is folded into it.
  function Decode(code: seq<byte>): (r: Option<Instruction>) {
    var p := PrefixCount(code);
    if p == |code| then None else
    var o := if IsRex(code[p]) then p + 1 else p;
    DecodeOpcode(if 0x66 in code[..p] then 2 else 4, IsRex(code[p]) && HasRexW(code[p]), o, code[o..])
  }

  // The part after the prefixes, which ended at offset `at`.
  function DecodeOpcode(immediateZ: nat, rexW: bool, at: nat, rest: seq<byte>): Option<Instruction> {
    var n := OpcodeSize(rest);
    if n == 0 then None else DecodeOperands(OpcodeKind(rest[..n]), immediateZ, rexW, at + n, rest[n..])
  }

  // The part after the opcode, which ended at offset `at`.
  function DecodeOperands(kind: Kind, immediateZ: nat, rexW: bool, at: nat, rest: seq<byte>): Option<Instruction> {
    if kind.Invalid? then None
    else if IsBranch(kind) then Some(Instruction(at + (if kind.Rel8? then 1 else 4), true, false, 0, 0))
    else if !HasModRM(kind) then
      var imm := PlainImmediateSize(kind, rexW, immediateZ);
      Accept(Instruction(at + imm, false, false, 0, imm))
    else if rest == [] || (HasSib(rest[0]) && |rest| < 2) then None
    else
      var modrm := rest[0];
      var head := if HasSib(modrm) then at + 2 else at + 1;
      var disp := DisplacementSize(modrm, if HasSib(modrm) then rest[1] else 0);
      var imm := ModRMImmediateSize(kind, modrm, immediateZ);
      var rip := IsRipRelative(modrm);
      Accept(Instruction(head + disp + imm, false, rip, if rip then head else 0, imm))
  }

  function Accept(ins: Instruction): Option<Instruction> {
    if 0 < ins.length <= MAX_LENGTH then Some(ins) else None
  }

  lemma {:induction false} PrefixCountFrom(code: seq<byte>, i: nat)
    requires i <= PrefixCount(code)
    ensures PrefixCount(code) == i + PrefixCount(code[i..])
  {
    if i > 0 {
      PrefixCountFrom(code[1..], i - 1);
      assert code[1..][i - 1..] == code[i..];
    }
  }

  // The decoder with its two opcode tables, filled on first use.
  class Decoder {
    const primary: array<Kind>
    const secondary: array<Kind>
    var ready: bool

    ghost predicate Valid()
      reads this, primary, secondary
    {
      primary.Length == 256 && secondary.Length == 256 && primary != secondary && (ready ==> Built())
    }

    ghost predicate Built()
      requires primary.Length == 256 && secondary.Length == 256
      reads this, primary, secondary
    {
      && (forall i :: 0 <= i < 256 ==> primary[i] == PrimaryKind(i))
      && (forall i :: 0 <= i < 256 ==> secondary[i] == SecondaryKind(i))
    }

    constructor ()
      ensures Valid() && !ready && fresh(primary) && fresh(secondary)
    {
      primary := new Kind[256](_ => Invalid);
      secondary := new Kind[256](_ => Invalid);
      ready := false;
    }

    method BuildTables()
      requires Valid()
      modifies this`ready, primary, secondary
      ensures Valid() && ready
    {
      if ready {
        return;
      }
      Fill(primary, 0, 255, Invalid);
      Fill(secondary, 0, 255, Invalid);
      FillAlu(primary);
      FillPrimary40(primary);
      FillPrimary80(primary);
      FillPrimaryC0(primary);
      FillSecondary00(secondary);
      FillSecondary80(secondary);
      FillSecondaryB0(secondary);
      ready := true;
    }

    method DecodeAt(code: seq<byte>) returns (r: Option<Instruction>)
      requires Valid()
      modifies this`ready, primary, secondary
      ensures Valid()
      ensures r == Decode(code)
    {
      hide OpcodeSize, OpcodeKind, DecodeOperands, PrimaryKind, SecondaryKind, HasRexW;
      BuildTables();
      var i, operandSize16 := SkipPrefixes(code);
      if i == |code| {
        return None;
      }
      var rexW := false;
      if IsRex(code[i]) {
        rexW := HasRexW(code[i]);
        i := i + 1;
      }
      var n, kind := ReadOpcode(code[i..]);
      if n == 0 {
        return None;
      }
      assert code[i..][n..] == code[i + n..];
      r := ReadOperands(kind, if operandSize16 then 2 else 4, rexW, i + n, code[i + n..]);
    }

    static method SkipPrefixes(code: seq<byte>) returns (i: nat, operandSize16: bool)
      ensures i == PrefixCount(code)
      ensures operandSize16 <==> 0x66 in code[..i]
    {
      i, operandSize16 := 0, false;
      while i < |code| && IsLegacyPrefix(code[i])
        invariant i <= PrefixCount(code)
        invariant operandSize16 <==> 0x66 in code[..i]
      {
        PrefixCountFrom(code, i);
        if code[i] == 0x66 {
          operandSize16 := true;
        }
        i := i + 1;
      }
    }

    method ReadOpcode(code: seq<byte>) returns (i: nat, kind: Kind)
      requires Valid() && ready
      ensures i == OpcodeSize(code)
      ensures i > 0 ==> kind == OpcodeKind(code[..i])
    {
      i, kind := 0, Invalid;
      if i == |code| {
        return;
      }
      var opcode := code[i];
      if opcode == 0x0F {
        if |code| == 1 {
          return;
        }
        i := i + 1;
        if code[i] == 0x38 || code[i] == 0x3A {
          if |code| == 2 {
            i := 0;
            return;
          }
          var hasImm8 := code[i] == 0x3A;
          i := i + 1;
          kind := if hasImm8 then ModRMImm8 else ModRM;
        } else {
          kind := secondary[code[i]];
        }
        i := i + 1;
      } else {
        kind := primary[opcode];
        i := i + 1;
      }
    }

    static method ReadOperands(kind: Kind, immediateZ: nat, rexW: bool, at: nat, rest: seq<byte>)
      returns (r: Option<Instruction>)
      ensures r == DecodeOperands(kind, immediateZ, rexW, at, rest)
    {
      if kind == Invalid {
        return None;
      }
      if kind == Rel8 || kind == Rel32 {
        return Some(Instruction(at + (if kind == Rel8 then 1 else 4), true, false, 0, 0));
      }
      if HasModRM(kind) {
        if rest == [] || (HasSib(rest[0]) && |rest| == 1) {
          return None;
        }
        var i, rip, dispAt := ReadModRM(rest, at);
        var immSize := ModRMImmediateSize(kind, rest[0], immediateZ);
        r := Accept(Instruction(i + immSize, false, rip, dispAt, immSize));
      } else {
        var immSize := PlainImmediateSize(kind, rexW, immediateZ);
        r := Accept(Instruction(at + immSize, false, false, 0, immSize));
      }
    }

    // Steps over the ModRM byte, the SIB byte and the displacement.
    static method ReadModRM(rest: seq<byte>, at: nat) returns (i: nat, ripRelative: bool, displacementOffset: nat)
      requires rest != [] && (HasSib(rest[0]) ==> |rest| > 1)
      ensures ripRelative == IsRipRelative(rest[0])
      ensures var head := if HasSib(rest[0]) then at + 2 else at + 1;
        && displacementOffset == (if ripRelative then head else 0)
        && i == head + DisplacementSize(rest[0], if HasSib(rest[0]) then rest[1] else 0)
    {
      i, ripRelative, displacementOffset := at, false, 0;
      var modrm := rest[0];
      i := i + 1;
      var sib: byte := 0;
      if HasSib(modrm) {
        sib := rest[1];
        i := i + 1;
      }
      if Mod(modrm) == 1 {
        i := i + 1;
      } else if Mod(modrm) == 2 {
        i := i + 4;
      } else if Mod(modrm) == 0 {
        if Rm(modrm) == 5 {
          ripRelative := true;
          displacementOffset := i;
          i := i + 4;
        } else if HasSib(modrm) && sib % 8 == 5 {
          i := i + 4;
        }
      }
    }
  }
}
