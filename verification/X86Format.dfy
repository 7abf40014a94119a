// The instruction format of the Intel SDM, volume 2, section 2.1, as a reference definition: an
// instruction is a record of fields, and the decoder is proved to be exactly its inverse.

module X86Format {
  import opened Bytes
  import opened Wrappers
  import opened Instructions
  import opened X86Tables
  import opened X86Decoder

  // ---- The fields, byte by byte: nothing here is defined by the decoder

  predicate IsPrefixByte(b: byte) {
    || b == 0xF0 || b == 0xF2 || b == 0xF3                                                   // lock, repeat
    || b == 0x26 || b == 0x2E || b == 0x36 || b == 0x3E || b == 0x64 || b == 0x65            // segments
    || b == 0x66 || b == 0x67                                                                // operand, address size
  }

  // One-byte opcodes with a ModRM byte.
  predicate PrimaryModRM(op: byte) {
    || (op < 0x40 && op % 8 <= 3)
    || op == 0x63 || op == 0x69 || op == 0x6B
    || op == 0x80 || op == 0x81 || op == 0x83 || 0x84 <= op <= 0x8B || op == 0x8D || op == 0x8F
    || op == 0xC0 || op == 0xC1 || op == 0xC6 || op == 0xC7 || 0xD0 <= op <= 0xD3
    || op == 0xF6 || op == 0xF7 || op == 0xFE || op == 0xFF
  }

  // One-byte opcodes with an immediate of one byte, and of the operand size; F6 and F7 have theirs for some ModRM bytes.
  predicate PrimaryImmediate8(op: byte) {
    || (op < 0x40 && op % 8 == 4)
    || op == 0x6A || op == 0x6B || op == 0x80 || op == 0x83 || op == 0xA8 || 0xB0 <= op <= 0xB7
    || op == 0xC0 || op == 0xC1 || op == 0xC6
  }

  predicate PrimaryImmediateZ(op: byte) {
    (op < 0x40 && op % 8 == 5) || op == 0x68 || op == 0x69 || op == 0x81 || op == 0xA9 || op == 0xC7
  }

  // One-byte opcodes that are followed by nothing.
  predicate PrimaryAlone(op: byte) {
    || 0x50 <= op <= 0x5F || 0x90 <= op <= 0x99 || op == 0x9C || op == 0x9D
    || op == 0xC3 || op == 0xC9 || op == 0xCC || op == 0xF4
  }

  predicate PrimaryRelative8(op: byte) {
    0x70 <= op <= 0x7F || op == 0xEB
  }

  predicate PrimaryRelative32(op: byte) {
    op == 0xE8 || op == 0xE9
  }

  // The same for the opcodes after 0F.
  predicate SecondaryModRM(op: byte) {
    || 0x10 <= op <= 0x1F || 0x28 <= op <= 0x2F || 0x40 <= op <= 0x4F || 0x51 <= op <= 0x7F || 0x90 <= op <= 0x9F
    || 0xA3 <= op <= 0xA5 || 0xAB <= op <= 0xB1 || 0xB3 <= op <= 0xB7 || 0xBA <= op <= 0xC6 || 0xD0 <= op <= 0xFE
  }

  predicate SecondaryImmediate8(op: byte) {
    0x70 <= op <= 0x73 || op == 0xA4 || op == 0xAC || op == 0xBA || op == 0xC2
  }

  predicate SecondaryAlone(op: byte) {
    op == 0x05 || op == 0x0B || op == 0xA2
  }

  predicate SecondaryRelative32(op: byte) {
    0x80 <= op <= 0x8F
  }

  predicate Known(opcode: seq<byte>) {
    if |opcode| == 1 then
      var op := opcode[0];
      || PrimaryModRM(op) || PrimaryImmediate8(op) || PrimaryImmediateZ(op) || PrimaryAlone(op)
      || PrimaryRelative8(op) || PrimaryRelative32(op) || op == 0xC2 || 0xB8 <= op <= 0xBF
    else if |opcode| == 2 then
      SecondaryModRM(opcode[1]) || SecondaryAlone(opcode[1]) || SecondaryRelative32(opcode[1])
    else true
  }

  predicate TakesModRM(opcode: seq<byte>) {
    if |opcode| == 1 then PrimaryModRM(opcode[0])
    else if |opcode| == 2 then SecondaryModRM(opcode[1])
    else true
  }

  predicate IsRelative(opcode: seq<byte>) {
    if |opcode| == 1 then PrimaryRelative8(opcode[0]) || PrimaryRelative32(opcode[0])
    else |opcode| == 2 && SecondaryRelative32(opcode[1])
  }

  // None without a ModRM byte; one byte for mod 01, four for mod 10; for mod 00 four exactly when rm is 101, or when there
  // is a SIB byte with base 101.
  function DisplacementBytes(modrm: seq<byte>, sib: seq<byte>): nat {
    if modrm == [] || modrm[0] >= 0xC0 then 0
    else if modrm[0] >= 0x80 then 4
    else if modrm[0] >= 0x40 then 1
    else if modrm[0] % 8 == 5 || (sib != [] && sib[0] % 8 == 5) then 4
    else 0
  }

  // Immediates, and the distances of relative branches.
  function ImmediateBytes(opcode: seq<byte>, modrm: seq<byte>, prefix66: bool, rexW: bool): nat {
    var z := if prefix66 then 2 else 4;
    if |opcode| == 1 then
      var op := opcode[0];
      if PrimaryImmediate8(op) || PrimaryRelative8(op) then 1
      else if PrimaryImmediateZ(op) then z
      else if PrimaryRelative32(op) then 4
      else if op == 0xC2 then 2
      else if 0xB8 <= op <= 0xBF then (if rexW then 8 else z)
      else if (op == 0xF6 || op == 0xF7) && modrm != [] && modrm[0] / 8 % 8 <= 1 then (if op == 0xF6 then 1 else z)
      else 0
    else if |opcode| == 2 then
      (if SecondaryImmediate8(opcode[1]) then 1 else if SecondaryRelative32(opcode[1]) then 4 else 0)
    else if |opcode| == 3 && opcode[1] == 0x3A then 1
    else 0
  }

  datatype Layout = Layout(
    prefixes: seq<byte>,
    rex: seq<byte>,
    opcode: seq<byte>,
    modrm: seq<byte>,
    sib: seq<byte>,
    disp: seq<byte>,
    imm: seq<byte>)
  {
    // Everything the decoder looks at.
    function Head(): seq<byte> {
      prefixes + (rex + (opcode + (modrm + sib)))
    }

    function Serialize(): seq<byte> {
      Head() + disp + imm
    }

    predicate OpcodeWellFormed() {
      || (|opcode| == 1 && opcode[0] != 0x0F)
      || (|opcode| == 2 && opcode[0] == 0x0F && opcode[1] != 0x38 && opcode[1] != 0x3A)
      || (|opcode| == 3 && opcode[0] == 0x0F && (opcode[1] == 0x38 || opcode[1] == 0x3A))
    }

    predicate WellFormed() {
      && (forall i :: 0 <= i < |prefixes| ==> IsPrefixByte(prefixes[i]))
      && |rex| <= 1 && (rex != [] ==> 0x40 <= rex[0] <= 0x4F)
      && OpcodeWellFormed() && Known(opcode)
      && |modrm| == (if TakesModRM(opcode) then 1 else 0)
      && |sib| == (if modrm != [] && modrm[0] < 0xC0 && modrm[0] % 8 == 4 then 1 else 0)
      && |disp| == DisplacementBytes(modrm, sib)
      && |imm| == ImmediateBytes(opcode, modrm, 0x66 in prefixes, rex != [] && rex[0] >= 0x48)
      && (IsRelative(opcode) || |Serialize()| <= 16)
    }

    function Describe(): Instruction
      requires WellFormed()
    {
      var rip := modrm != [] && modrm[0] < 0x40 && modrm[0] % 8 == 5;
      if IsRelative(opcode) then Instruction(|Serialize()|, true, false, 0, 0)
      else Instruction(|Serialize()|, false, rip, if rip then |Head()| else 0, |imm|)
    }

    // The same, in the decoder's own terms.
    function ImmediateZ(): nat {
      if 0x66 in prefixes then 2 else 4
    }

    predicate RexW()
      requires |rex| <= 1
    {
      |rex| == 1 && HasRexW(rex[0])
    }

    function Kind(): Kind
      requires OpcodeWellFormed()
    {
      OpcodeKind(opcode)
    }

    predicate Acceptable() {
      && (forall i :: 0 <= i < |prefixes| ==> IsLegacyPrefix(prefixes[i]))
      && |rex| <= 1 && (rex != [] ==> IsRex(rex[0]))
      && OpcodeWellFormed() && !Kind().Invalid?
      && OperandsFit(Kind(), ImmediateZ(), RexW(), modrm, sib, disp, imm)
      && (IsBranch(Kind()) || |Serialize()| <= MAX_LENGTH)
    }

    function Report(): Instruction
      requires Acceptable()
    {
      Description(Kind(), |Head()|, modrm, |disp|, |imm|)
    }
  }

  // What the opcode's kind takes as an immediate.
  function KindImmediate(kind: Kind, immediateZ: nat, rexW: bool, modrm: seq<byte>): nat {
    if kind.Rel8? then 1
    else if kind.Rel32? then 4
    else if modrm != [] then ModRMImmediateSize(kind, modrm[0], immediateZ)
    else PlainImmediateSize(kind, rexW, immediateZ)
  }

  // The operand fields an opcode of this kind takes; branch targets are carried as the immediate.
  predicate OperandsFit(kind: Kind, immediateZ: nat, rexW: bool,
                        modrm: seq<byte>, sib: seq<byte>, disp: seq<byte>, imm: seq<byte>)
  {
    && |modrm| == (if HasModRM(kind) then 1 else 0)
    && |sib| == (if modrm != [] && HasSib(modrm[0]) then 1 else 0)
    && |disp| == (if modrm == [] then 0 else DisplacementSize(modrm[0], if sib == [] then 0 else sib[0]))
    && |imm| == KindImmediate(kind, immediateZ, rexW, modrm)
  }

  function Description(kind: Kind, head: nat, modrm: seq<byte>, disp: nat, imm: nat): Instruction {
    var rip := modrm != [] && IsRipRelative(modrm[0]);
    if IsBranch(kind) then Instruction(head + disp + imm, true, false, 0, 0)
    else Instruction(head + disp + imm, false, rip, if rip then head else 0, imm)
  }

  // No accepted one-byte opcode can be mistaken for a prefix, a REX byte or the escape.
  lemma PrimaryOpcodesAreNotPrefixes(op: byte)
    requires !PrimaryKind(op).Invalid?
    ensures !IsLegacyPrefix(op) && !IsRex(op) && op != 0x0F
  {}

  lemma {:induction false} PrefixesEnd(prefixes: seq<byte>, rest: seq<byte>)
    requires forall i :: 0 <= i < |prefixes| ==> IsLegacyPrefix(prefixes[i])
    requires rest != [] && !IsLegacyPrefix(rest[0])
    ensures PrefixCount(prefixes + rest) == |prefixes|
  {
    if prefixes == [] {
      assert prefixes + rest == rest;
    } else {
      PrefixesEnd(prefixes[1..], rest);
      assert (prefixes + rest)[1..] == prefixes[1..] + rest;
    }
  }

  lemma OperandsOf(kind: Kind, immediateZ: nat, rexW: bool, at: nat,
                   modrm: seq<byte>, sib: seq<byte>, disp: seq<byte>, imm: seq<byte>, rest: seq<byte>)
    requires !kind.Invalid? && OperandsFit(kind, immediateZ, rexW, modrm, sib, disp, imm)
    requires IsBranch(kind) || 0 < at + |modrm| + |sib| + |disp| + |imm| <= MAX_LENGTH
    ensures DecodeOperands(kind, immediateZ, rexW, at, modrm + sib + rest)
      == Some(Description(kind, at + |modrm| + |sib|, modrm, |disp|, |imm|))
  {
    var tail := modrm + sib + rest;
    if modrm != [] {
      assert tail[0] == modrm[0];
      assert sib != [] ==> tail[1] == sib[0];
    }
  }

  lemma FourSlices(s: seq<byte>, a: nat, b: nat, c: nat, d: nat)
    requires a <= b <= c <= d <= |s|
    ensures s[..a] + s[a..b] + s[b..c] + s[c..d] == s[..d]
  {}

  // The operand fields, read back from the bytes after the opcode.
  lemma OperandsSound(kind: Kind, immediateZ: nat, rexW: bool, at: nat, rest: seq<byte>, ins: Instruction)
    returns (modrm: seq<byte>, sib: seq<byte>, disp: seq<byte>, imm: seq<byte>)
    requires DecodeOperands(kind, immediateZ, rexW, at, rest) == Some(ins) && ins.length <= at + |rest|
    ensures !kind.Invalid? && OperandsFit(kind, immediateZ, rexW, modrm, sib, disp, imm)
    ensures at <= ins.length && modrm + sib + disp + imm == rest[..ins.length - at]
    ensures ins == Description(kind, at + |modrm| + |sib|, modrm, |disp|, |imm|)
    ensures IsBranch(kind) || ins.length <= MAX_LENGTH
  {
    if HasModRM(kind) {
      var s := if HasSib(rest[0]) then 2 else 1;
      var e := ins.length - at - ins.immediateSize;
      modrm, sib, disp, imm := rest[..1], rest[1..s], rest[s..e], rest[e..ins.length - at];
      FourSlices(rest, 1, s, e, ins.length - at);
    } else {
      modrm, sib, disp, imm := [], [], [], rest[..ins.length - at];
    }
  }

  lemma Reassociate(a: seq<byte>, b: seq<byte>, c: seq<byte>, d: seq<byte>, e: seq<byte>)
    ensures a + (b + (c + d)) + e == a + (b + (c + (d + e)))
    ensures a + (b + (c + d)) + e == a + b + c + (d + e)
  {}

  lemma OpcodeSizeOf(l: Layout, rest: seq<byte>)
    requires l.Acceptable()
    ensures OpcodeSize(l.opcode + rest) == |l.opcode|
    ensures var start := l.rex + (l.opcode + rest);
      !IsLegacyPrefix(start[0]) && (IsRex(start[0]) <==> l.rex != [])
  {
    if |l.opcode| == 1 {
      PrimaryOpcodesAreNotPrefixes(l.opcode[0]);
    }
  }

  // Prefixes `a` and REX `b` are split off in turn.
  lemma DecodePrefixes(a: seq<byte>, b: seq<byte>, rest: seq<byte>)
    requires |b| <= 1 && (b != [] ==> IsRex(b[0]))
    requires rest != [] && (b == [] ==> !IsRex(rest[0]))
    requires PrefixCount(a + (b + rest)) == |a|
    ensures Decode(a + (b + rest)) ==
      DecodeOpcode(if 0x66 in a then 2 else 4, b != [] && HasRexW(b[0]), |a| + |b|, rest)
  {
    hide DecodeOpcode, PrefixCount, IsLegacyPrefix, IsRex, HasRexW;
    TwoCuts(a, b, rest);
  }

  lemma TwoCuts(a: seq<byte>, b: seq<byte>, rest: seq<byte>)
    requires |b| <= 1 && rest != []
    ensures var code := a + (b + rest);
      && |a| < |code| && code[|a|] == (if b == [] then rest[0] else b[0])
      && code[..|a|] == a && code[|a| + |b|..] == rest
  {}

  lemma DecodeAfterRex(immediateZ: nat, rexW: bool, at: nat, c: seq<byte>, d: seq<byte>)
    requires c != [] && OpcodeSize(c + d) == |c|
    ensures DecodeOpcode(immediateZ, rexW, at, c + d) == DecodeOperands(OpcodeKind(c), immediateZ, rexW, at + |c|, d)
  {
    assert (c + d)[..|c|] == c && (c + d)[|c|..] == d;
  }

  lemma DecodeFields(l: Layout, operands: seq<byte>, code: seq<byte>)
    requires l.Acceptable()
    requires code == l.prefixes + (l.rex + (l.opcode + operands))
    ensures Decode(code) ==
      DecodeOperands(l.Kind(), l.ImmediateZ(), l.RexW(), |l.prefixes| + |l.rex| + |l.opcode|, operands)
  {
    hide DecodeOperands, DecodeOpcode, OpcodeKind, OperandsFit, IsBranch, HasRexW;
    OpcodeSizeOf(l, operands);
    PrefixesEnd(l.prefixes, l.rex + (l.opcode + operands));
    DecodePrefixes(l.prefixes, l.rex, l.opcode + operands);
    DecodeAfterRex(l.ImmediateZ(), l.RexW(), |l.prefixes| + |l.rex|, l.opcode, operands);
  }

  lemma DescribeOperands(l: Layout, rest: seq<byte>)
    requires l.Acceptable()
    ensures DecodeOperands(l.Kind(), l.ImmediateZ(), l.RexW(), |l.prefixes| + |l.rex| + |l.opcode|,
      l.modrm + l.sib + rest) == Some(l.Report())
  {
    var at := |l.prefixes| + |l.rex| + |l.opcode|;
    assert |l.Head()| == at + |l.modrm| + |l.sib|;
    assert |l.Serialize()| == |l.Head()| + |l.disp| + |l.imm|;
    OperandsOf(l.Kind(), l.ImmediateZ(), l.RexW(), at, l.modrm, l.sib, l.disp, l.imm, rest);
  }

  // Completeness, and independence from what follows the head: decoding a serialized instruction gives
  // back its description whatever the displacement, the immediate and the following bytes are.
  lemma DecodeHead(l: Layout, rest: seq<byte>, code: seq<byte>)
    requires l.Acceptable() && code == l.Head() + rest
    ensures Decode(code) == Some(l.Report())
  {
    Reassociate(l.prefixes, l.rex, l.opcode, l.modrm + l.sib, rest);
    DescribeOperands(l, rest);
    DecodeFields(l, l.modrm + l.sib + rest, code);
  }

  lemma DecodeSerialized(l: Layout, rest: seq<byte>)
    requires l.Acceptable()
    ensures Decode(l.Serialize() + rest) == Some(l.Report())
  {
    DecodeHead(l, l.disp + l.imm + rest, l.Serialize() + rest);
  }

  // The opposite of the two lemmas above: the prefixes and the REX byte an accepted instruction starts with,
  lemma PeelPrefixes(code: seq<byte>, ins: Instruction) returns (a: seq<byte>, b: seq<byte>, rest: seq<byte>)
    requires Decode(code) == Some(ins)
    ensures code == a + b + rest
    ensures forall i :: 0 <= i < |a| ==> IsLegacyPrefix(a[i])
    ensures |b| <= 1 && (b != [] ==> IsRex(b[0]))
    ensures DecodeOpcode(if 0x66 in a then 2 else 4, b != [] && HasRexW(b[0]), |a| + |b|, rest) == Some(ins)
  {
    hide DecodeOpcode, PrefixCount, HasRexW, IsLegacyPrefix, IsRex;
    var p := PrefixCount(code);
    var o := if IsRex(code[p]) then p + 1 else p;
    a, b, rest := code[..p], code[p..o], code[o..];
    assert b != [] ==> b[0] == code[p];
  }

  // and then its opcode.
  lemma PeelOpcode(immediateZ: nat, rexW: bool, at: nat, rest: seq<byte>, ins: Instruction)
    returns (c: seq<byte>, d: seq<byte>)
    requires DecodeOpcode(immediateZ, rexW, at, rest) == Some(ins)
    ensures rest == c + d && c != [] && OpcodeSize(c + d) == |c|
    ensures DecodeOperands(OpcodeKind(c), immediateZ, rexW, at + |c|, d) == Some(ins)
  {
    hide DecodeOperands, OpcodeKind, OpcodeSize;
    var n := OpcodeSize(rest);
    c, d := rest[..n], rest[n..];
    assert c + d == rest;
  }

  lemma Peel(code: seq<byte>, ins: Instruction) returns (a: seq<byte>, b: seq<byte>, c: seq<byte>, d: seq<byte>)
    requires Decode(code) == Some(ins)
    ensures code == a + b + c + d
    ensures forall i :: 0 <= i < |a| ==> IsLegacyPrefix(a[i])
    ensures |b| <= 1 && (b != [] ==> IsRex(b[0]))
    ensures c != [] && OpcodeSize(c + d) == |c|
    ensures DecodeOperands(OpcodeKind(c), if 0x66 in a then 2 else 4, b != [] && HasRexW(b[0]), |a| + |b| + |c|, d)
      == Some(ins)
  {
    hide *;
    var rest;
    a, b, rest := PeelPrefixes(code, ins);
    c, d := PeelOpcode(if 0x66 in a then 2 else 4, b != [] && HasRexW(b[0]), |a| + |b|, rest, ins);
    assert a + b + (c + d) == a + b + c + d;
  }

  lemma OpcodeShape(c: seq<byte>, d: seq<byte>)
    requires c != [] && OpcodeSize(c + d) == |c|
    ensures Layout([], [], c, [], [], [], []).OpcodeWellFormed()
  {}

  lemma PiecesSerialize(l: Layout, d: seq<byte>, n: nat)
    requires n <= |d| && l.modrm + l.sib + l.disp + l.imm == d[..n]
    ensures l.Serialize() == (l.prefixes + l.rex + l.opcode + d)[..|l.prefixes| + |l.rex| + |l.opcode| + n]
  {
    Reassociate(l.prefixes, l.rex, l.opcode, l.modrm + l.sib, l.disp + l.imm);
    assert l.Serialize() == l.Head() + (l.disp + l.imm);
    assert l.modrm + l.sib + (l.disp + l.imm) == d[..n];
    assert l.Serialize() == l.prefixes + l.rex + l.opcode + d[..n];
  }

  lemma Assemble(a: seq<byte>, b: seq<byte>, c: seq<byte>, d: seq<byte>, ins: Instruction) returns (l: Layout)
    requires forall i :: 0 <= i < |a| ==> IsLegacyPrefix(a[i])
    requires |b| <= 1 && (b != [] ==> IsRex(b[0]))
    requires c != [] && OpcodeSize(c + d) == |c|
    requires DecodeOperands(OpcodeKind(c), if 0x66 in a then 2 else 4, b != [] && HasRexW(b[0]), |a| + |b| + |c|, d)
      == Some(ins)
    requires ins.length <= |a| + |b| + |c| + |d|
    ensures l.Acceptable() && l.Report() == ins && l.Serialize() == (a + b + c + d)[..ins.length]
  {
    hide OpcodeKind, DecodeOperands;
    OpcodeShape(c, d);
    var m := |a| + |b| + |c|;
    var modrm, sib, disp, imm :=
      OperandsSound(OpcodeKind(c), if 0x66 in a then 2 else 4, b != [] && HasRexW(b[0]), m, d, ins);
    l := Layout(a, b, c, modrm, sib, disp, imm);
    assert l.Serialize() == (a + b + c + d)[..ins.length] by {
      PiecesSerialize(l, d, ins.length - m);
    }
    assert |l.Head()| == m + |modrm| + |sib|;
  }

  // ---- The format and the decoder agree field by field

  lemma PrefixesAgree(b: byte)
    ensures IsLegacyPrefix(b) <==> IsPrefixByte(b)
    ensures IsRex(b) <==> 0x40 <= b <= 0x4F
    ensures IsRex(b) ==> (HasRexW(b) <==> b >= 0x48)
  {}

  lemma OpcodesAgree(l: Layout)
    requires l.OpcodeWellFormed()
    ensures Known(l.opcode) <==> !l.Kind().Invalid?
    ensures TakesModRM(l.opcode) <==> HasModRM(l.Kind())
    ensures IsRelative(l.opcode) <==> IsBranch(l.Kind())
  {
    if |l.opcode| == 1 {
      PrimaryAgrees(l.opcode[0]);
    } else if |l.opcode| == 2 {
      SecondaryAgrees(l.opcode[1]);
    }
  }

  lemma PrimaryAgrees(op: byte)
    requires op != 0x0F
    ensures Known([op]) <==> !PrimaryKind(op).Invalid?
    ensures PrimaryModRM(op) <==> HasModRM(PrimaryKind(op))
    ensures PrimaryRelative8(op) <==> PrimaryKind(op).Rel8?
    ensures PrimaryRelative32(op) <==> PrimaryKind(op).Rel32?
  {}

  lemma SecondaryAgrees(op: byte)
    ensures SecondaryModRM(op) || SecondaryAlone(op) || SecondaryRelative32(op) <==> !SecondaryKind(op).Invalid?
    ensures SecondaryModRM(op) <==> HasModRM(SecondaryKind(op))
    ensures SecondaryRelative32(op) <==> IsBranch(SecondaryKind(op))
    ensures SecondaryImmediate8(op) <==> SecondaryKind(op).ModRMImm8?
    ensures SecondaryKind(op).Rel32? || SecondaryKind(op).Plain? || SecondaryKind(op).Invalid?
         || SecondaryKind(op).ModRM? || SecondaryKind(op).ModRMImm8?
  {}

  lemma PrimaryImmediateAgrees(op: byte, modrm: seq<byte>, prefix66: bool, rexW: bool)
    requires op != 0x0F && Known([op]) && |modrm| == if PrimaryModRM(op) then 1 else 0
    ensures ImmediateBytes([op], modrm, prefix66, rexW)
         == KindImmediate(PrimaryKind(op), if prefix66 then 2 else 4, rexW, modrm)
  {}

  lemma ImmediatesAgree(l: Layout, prefix66: bool, rexW: bool)
    requires l.OpcodeWellFormed() && Known(l.opcode) && |l.modrm| == if TakesModRM(l.opcode) then 1 else 0
    ensures ImmediateBytes(l.opcode, l.modrm, prefix66, rexW)
         == KindImmediate(l.Kind(), if prefix66 then 2 else 4, rexW, l.modrm)
  {
    hide PrimaryKind, SecondaryKind, SecondaryImmediate8, SecondaryRelative32;
    if |l.opcode| == 1 {
      assert l.opcode == [l.opcode[0]];
      PrimaryImmediateAgrees(l.opcode[0], l.modrm, prefix66, rexW);
    } else if |l.opcode| == 2 {
      SecondaryAgrees(l.opcode[1]);
    }
  }

  lemma DisplacementsAgree(modrm: byte, sib: seq<byte>)
    requires |sib| == if HasSib(modrm) then 1 else 0
    ensures HasSib(modrm) <==> modrm < 0xC0 && modrm % 8 == 4
    ensures IsRipRelative(modrm) <==> modrm < 0x40 && modrm % 8 == 5
    ensures DisplacementBytes([modrm], sib) == DisplacementSize(modrm, if sib == [] then 0 else sib[0])
  {}

  lemma SibsAgree(modrm: byte)
    ensures HasSib(modrm) <==> modrm < 0xC0 && modrm % 8 == 4
  {}

  lemma OperandsAgree(l: Layout, prefix66: bool, rexW: bool)
    requires l.OpcodeWellFormed() && Known(l.opcode)
    ensures OperandsFit(l.Kind(), if prefix66 then 2 else 4, rexW, l.modrm, l.sib, l.disp, l.imm) <==>
      && |l.modrm| == (if TakesModRM(l.opcode) then 1 else 0)
      && |l.sib| == (if l.modrm != [] && l.modrm[0] < 0xC0 && l.modrm[0] % 8 == 4 then 1 else 0)
      && |l.disp| == DisplacementBytes(l.modrm, l.sib)
      && |l.imm| == ImmediateBytes(l.opcode, l.modrm, prefix66, rexW)
  {
    hide OpcodeKind, ImmediateBytes, DisplacementBytes, DisplacementSize, HasSib, TakesModRM, HasModRM;
    hide ModRMImmediateSize, PlainImmediateSize, Layout.OpcodeWellFormed, Known;
    OpcodesAgree(l);
    if |l.modrm| == (if TakesModRM(l.opcode) then 1 else 0) {
      ImmediatesAgree(l, prefix66, rexW);
      if l.modrm != [] {
        SibsAgree(l.modrm[0]);
        assert l.modrm == [l.modrm[0]];
        if |l.sib| == if HasSib(l.modrm[0]) then 1 else 0 {
          DisplacementsAgree(l.modrm[0], l.sib);
        }
      } else {
        NoDisplacement(l.sib);
      }
    }
  }

  lemma NoDisplacement(sib: seq<byte>)
    ensures DisplacementBytes([], sib) == 0
  {}

  lemma FormsAgree(l: Layout)
    ensures l.WellFormed() <==> l.Acceptable()
    ensures l.WellFormed() ==> l.Describe() == l.Report()
  {
    hide OperandsFit, OpcodeKind, Known, IsRelative, IsBranch, TakesModRM, ImmediateBytes, DisplacementBytes;
    hide IsLegacyPrefix, IsPrefixByte, IsRex, HasRexW, Layout.OpcodeWellFormed;
    forall b: byte
      ensures IsLegacyPrefix(b) <==> IsPrefixByte(b)
    {
      PrefixesAgree(b);
    }
    if l.rex != [] {
      PrefixesAgree(l.rex[0]);
    }
    if l.OpcodeWellFormed() {
      OpcodesAgree(l);
      if Known(l.opcode) && |l.rex| <= 1 && (l.rex != [] ==> IsRex(l.rex[0])) {
        OperandsAgree(l, 0x66 in l.prefixes, l.RexW());
        ReportAgrees(l);
      }
    }
  }

  lemma ReportAgrees(l: Layout)
    requires l.OpcodeWellFormed()
    ensures Description(l.Kind(), |l.Head()|, l.modrm, |l.disp|, |l.imm|)
         == (var rip := l.modrm != [] && l.modrm[0] < 0x40 && l.modrm[0] % 8 == 5;
             if IsRelative(l.opcode) then Instruction(|l.Serialize()|, true, false, 0, 0)
             else Instruction(|l.Serialize()|, false, rip, if rip then |l.Head()| else 0, |l.imm|))
  {
    hide OpcodeKind, IsRelative, IsBranch;
    OpcodesAgree(l);
  }

  // ---- The decoder is exactly the inverse of serializing

  // Soundness: whatever the decoder accepts is a serialized instruction with that description.
  lemma DecodeSound(code: seq<byte>, ins: Instruction) returns (l: Layout)
    requires Decode(code) == Some(ins) && ins.length <= |code|
    ensures l.WellFormed() && l.Serialize() == code[..ins.length] && l.Describe() == ins
  {
    hide *;
    var a, b, c, d := Peel(code, ins);
    l := Assemble(a, b, c, d, ins);
    FormsAgree(l);
  }

  lemma DecodeComplete(code: seq<byte>, l: Layout)
    requires l.WellFormed() && |l.Serialize()| <= |code| && l.Serialize() == code[..|l.Serialize()|]
    ensures Decode(code) == Some(l.Describe())
  {
    hide *;
    var rest := code[|l.Serialize()|..];
    FormsAgree(l);
    DecodeSerialized(l, rest);
    assert code == l.Serialize() + rest;
  }

  // The decoder accepts exactly the serialized instructions, and describes them exactly.
  lemma DecodeExact(code: seq<byte>, ins: Instruction)
    requires ins.length <= |code|
    ensures Decode(code) == Some(ins) <==>
      exists l: Layout :: l.WellFormed() && l.Serialize() == code[..ins.length] && l.Describe() == ins
  {
    hide Decode, Layout.WellFormed;
    if Decode(code) == Some(ins) {
      var l := DecodeSound(code, ins);
    }
    if l: Layout :| l.WellFormed() && l.Serialize() == code[..ins.length] && l.Describe() == ins {
      SizeIsDescribed(l);
      DecodeComplete(code, l);
    }
  }

  lemma SizeIsDescribed(l: Layout)
    requires l.WellFormed()
    ensures l.Describe().length == |l.Serialize()|
  {
    hide Layout.WellFormed, Layout.Serialize;
  }
}

// Moving an instruction whose operand is RIP-relative (Intel SDM, volume 2, section 2.2.1.6).
module X86Relocation {
  import opened Bytes
  import opened Wrappers
  import opened Instructions
  import opened X86Tables
  import opened X86Decoder
  import opened X86Format

  // The decoder never looks past the head: not at the displacement, the immediate or later bytes. Together
  // with the sizes this is the layout every relocation relies on.
  lemma DecodeLocal(code: seq<byte>, ins: Instruction) returns (head: nat)
    requires Decode(code) == Some(ins) && ins.length <= |code|
    ensures head <= ins.length
    ensures ins.ripRelative ==> head == ins.displacementOffset && head + 4 + ins.immediateSize == ins.length
    ensures !ins.relativeBranch ==> 1 <= ins.length <= MAX_LENGTH && ins.immediateSize <= ins.length - head
    ensures forall other: seq<byte> :: |other| >= head && other[..head] == code[..head] ==> Decode(other) == Some(ins)
  {
    var l := DecodeSound(code, ins);
    FormsAgree(l);
    head := HeadSize(l);
    forall other: seq<byte> | |other| >= head && other[..head] == code[..head]
      ensures Decode(other) == Some(ins)
    {
      assert code[..head] == code[..ins.length][..head];
      DecodeSameHead(l, other);
    }
  }

  lemma HeadSize(l: Layout) returns (head: nat)
    requires l.Acceptable()
    ensures head == |l.Head()| <= |l.Serialize()| && l.Serialize()[..head] == l.Head()
    ensures var ins := l.Report();
      && (ins.ripRelative ==> head == ins.displacementOffset && head + 4 + ins.immediateSize == ins.length)
      && (!ins.relativeBranch ==> 1 <= ins.length <= MAX_LENGTH && ins.immediateSize <= ins.length - head)
  {
    head := |l.Head()|;
    assert |l.Serialize()| == head + |l.disp| + |l.imm|;
    assert l.opcode != [];
  }

  lemma DecodeSameHead(l: Layout, other: seq<byte>)
    requires l.Acceptable() && |l.Head()| <= |other| && other[..|l.Head()|] == l.Head()
    ensures Decode(other) == Some(l.Report())
  {
    DecodeHead(l, other[|l.Head()|..], other);
  }

  predicate Instructionwise(bytes: seq<byte>, ins: Instruction) {
    |bytes| == ins.length && Decode(bytes) == Some(ins)
  }

  // The address a RIP-relative operand denotes when the instruction sits at `at`.
  function Operand(at: int, bytes: seq<byte>, ins: Instruction): Option<int>
    requires ins.ripRelative ==> ins.displacementOffset + 4 <= |bytes|
  {
    if !ins.ripRelative then None
    else Some(at + ins.length + ReadInt32(bytes[ins.displacementOffset..ins.displacementOffset + 4]))
  }

  // The instruction with its displacement field zeroed: everything relocation must not change.
  function Shape(bytes: seq<byte>, ins: Instruction): seq<byte>
    requires ins.ripRelative ==> ins.displacementOffset + 4 <= |bytes|
  {
    if !ins.ripRelative then bytes else Splice(bytes, ins.displacementOffset, [0, 0, 0, 0])
  }

  function Relocate(from: int, to: int, bytes: seq<byte>, ins: Instruction): (r: Option<seq<byte>>)
    requires ins.ripRelative ==> ins.displacementOffset + 4 <= |bytes|
    ensures r.Some? ==> |r.value| == |bytes|
  {
    if !ins.ripRelative then Some(bytes)
    else
      var displacement := ReadInt32(bytes[ins.displacementOffset..ins.displacementOffset + 4]);
      var adjusted := from + ins.length + displacement - (to + ins.length);
      if Fits(adjusted, INT32_LIMIT) then Some(Splice(bytes, ins.displacementOffset, WriteInt32(adjusted))) else None
  }

  lemma RelocateRip(from: int, to: int, bytes: seq<byte>, ins: Instruction)
    requires ins.ripRelative && ins.displacementOffset + 4 <= |bytes|
    requires Relocate(from, to, bytes, ins).Some?
    ensures var r := Relocate(from, to, bytes, ins).value;
      && Operand(to, r, ins) == Operand(from, bytes, ins)
      && Shape(r, ins) == Shape(bytes, ins)
      && Relocate(to, from, r, ins) == Some(bytes)
  {
    var at := ins.displacementOffset;
    var old4 := bytes[at..at + 4];
    var new4 := WriteInt32(from + ReadInt32(old4) - to);
    var r := Splice(bytes, at, new4);
    assert r[at..at + 4] == new4;
    Int32ReadsBack(from + ReadInt32(old4) - to);
    Int32Restores(old4);
    SpliceTwice(bytes, at, new4, [0, 0, 0, 0]);
    SpliceTwice(bytes, at, new4, old4);
    SpliceSame(bytes, at, 4);
  }

  // Relocation succeeds exactly when the re-based displacement is a signed 32-bit number; then the operand
  // keeps its absolute address, only the displacement field differs, the result decodes as before whatever
  // follows it, and relocating back restores the original bytes.
  lemma RelocateExact(from: int, to: int, bytes: seq<byte>, ins: Instruction)
    requires Instructionwise(bytes, ins)
    ensures ins.ripRelative ==> ins.displacementOffset + 4 <= |bytes|
    ensures Relocate(from, to, bytes, ins).Some? <==>
      (Operand(from, bytes, ins).Some? ==> Fits(Operand(from, bytes, ins).value - (to + ins.length), INT32_LIMIT))
    ensures Relocate(from, to, bytes, ins).Some? ==>
      var r := Relocate(from, to, bytes, ins).value;
      && Instructionwise(r, ins)
      && (forall rest: seq<byte> :: Decode(r + rest) == Some(ins))
      && Operand(to, r, ins) == Operand(from, bytes, ins)
      && Shape(r, ins) == Shape(bytes, ins)
      && Relocate(to, from, r, ins) == Some(bytes)
  {
    var head := DecodeLocal(bytes, ins);
    if Relocate(from, to, bytes, ins).Some? {
      var r := Relocate(from, to, bytes, ins).value;
      if ins.ripRelative {
        RelocateRip(from, to, bytes, ins);
        assert r[..head] == bytes[..head];
      }
      forall rest: seq<byte> ensures Decode(r + rest) == Some(ins) {
        assert (r + rest)[..head] == bytes[..head];
      }
    }
  }

  // Shape and operand together are the whole instruction: nothing of it is lost in describing it by them.
  lemma ShapeAndOperandDecide(at: int, a: seq<byte>, b: seq<byte>, ins: Instruction)
    requires Instructionwise(a, ins) && Instructionwise(b, ins)
    ensures ins.ripRelative ==> ins.displacementOffset + 4 <= |a|
    ensures Operand(at, a, ins) == Operand(at, b, ins) && Shape(a, ins) == Shape(b, ins) ==> a == b
  {
    hide Decode, Operand, Shape;
    var head := DecodeLocal(a, ins);
    if ins.ripRelative {
      FieldDecides(at, a, b, ins);
    } else {
      NoFieldDecides(a, b, ins);
    }
  }

  lemma NoFieldDecides(a: seq<byte>, b: seq<byte>, ins: Instruction)
    requires !ins.ripRelative
    ensures Shape(a, ins) == Shape(b, ins) ==> a == b
  {}

  lemma FieldDecides(at: int, a: seq<byte>, b: seq<byte>, ins: Instruction)
    requires ins.ripRelative && ins.displacementOffset + 4 <= |a| == |b|
    ensures Operand(at, a, ins) == Operand(at, b, ins) && Shape(a, ins) == Shape(b, ins) ==> a == b
  {
    hide Splice, ReadInt32, WriteInt32;
    FieldRestores(a, ins.displacementOffset);
    FieldRestores(b, ins.displacementOffset);
  }

  lemma FieldRestores(bytes: seq<byte>, at: nat)
    requires at + 4 <= |bytes|
    ensures Splice(Splice(bytes, at, [0, 0, 0, 0]), at, WriteInt32(ReadInt32(bytes[at..at + 4]))) == bytes
  {
    hide Splice, ReadInt32, WriteInt32;
    Int32Restores(bytes[at..at + 4]);
    SpliceTwice(bytes, at, [0, 0, 0, 0], bytes[at..at + 4]);
    SpliceSame(bytes, at, 4);
  }

  // An indirect jump through the eight bytes that follow it, which are the target.
  const JUMP_SIZE := 14

  function Jump(to: nat): (s: seq<byte>)
    ensures |s| == JUMP_SIZE
  {
    [0xFF, 0x25, 0, 0, 0, 0] + LittleEndian(to, 8)
  }

  // The jump decodes as an indirect jump through the eight bytes after it, and those read back as `to`.
  lemma JumpReadsBack(at: int, to: nat, rest: seq<byte>)
    requires to < UINT64_LIMIT
    ensures var ins := Instruction(6, false, true, 2, 0);
      && Decode(Jump(to) + rest) == Some(ins)
      && Operand(at, Jump(to)[..6], ins) == Some(at + 6)
      && FromLittleEndian(Jump(to)[6..]) == to
  {
    JumpDecodes(LittleEndian(to, 8) + rest, Jump(to) + rest);
    assert Jump(to)[..6][2..6] == [0, 0, 0, 0];
    ZeroDisplacement();
    assert Jump(to)[6..] == LittleEndian(to, 8);
    PointerWidth();
    LittleEndianReadsBack(to, 8);
  }

  lemma JumpDecodes(tail: seq<byte>, code: seq<byte>)
    requires code == [0xFF, 0x25, 0, 0, 0, 0] + tail
    ensures Decode(code) == Some(Instruction(6, false, true, 2, 0))
  {
    var l := Layout([], [], [0xFF], [0x25], [], [0, 0, 0, 0], []);
    assert l.Head() == [0xFF, 0x25];
    DecodeSameHead(l, code);
  }

  lemma ZeroDisplacement()
    ensures ReadInt32([0, 0, 0, 0]) == 0
  {
    var zeros := LittleEndian(0, 3);
    assert zeros == [0] + LittleEndian(0, 2);
    assert LittleEndian(0, 2) == [0] + LittleEndian(0, 1);
    assert LittleEndian(0, 4) == [0, 0, 0, 0];
    Int32ReadsBack(0);
  }
}
