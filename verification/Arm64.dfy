// aarch64: recognising and re-basing the PC-relative instructions (Arm Architecture Reference Manual
// DDI 0487, section C6.2: ADR, ADRP, LDR (literal), B, B.cond, CBZ, TBZ).
//
// A mask such as 0x9F000000 selects whole fields of the word, so it is written here as a condition on those
// fields: bits 4..0, 23..5 and 31..24.

module Arm64Word {
  import opened Bytes

  type word = x: int | 0 <= x < 0x1_0000_0000

  const IMM19_COUNT := 0x8_0000
  const IMM21_HALF := 0x10_0000
  const IMM19_HALF := 0x4_0000

  function Low(w: word): (f: nat) ensures f < 32 { w % 32 }
  function Imm19(w: word): (f: nat) ensures f < IMM19_COUNT { w / 32 % IMM19_COUNT }
  function Top(w: word): (f: nat) ensures f < 256 { w / 32 / IMM19_COUNT }

  function Join(low: nat, imm19: nat, top: nat): word
    requires low < 32 && imm19 < IMM19_COUNT && top < 256
  {
    low + 32 * (imm19 + IMM19_COUNT * top)
  }

  lemma DivMod32(low: int, high: int)
    requires 0 <= low < 32
    ensures (low + 32 * high) % 32 == low && (low + 32 * high) / 32 == high
  {}

  lemma DivModImm19(low: int, high: int)
    requires 0 <= low < IMM19_COUNT
    ensures (low + IMM19_COUNT * high) % IMM19_COUNT == low && (low + IMM19_COUNT * high) / IMM19_COUNT == high
  {}

  lemma JoinSplits(low: nat, imm19: nat, top: nat)
    requires low < 32 && imm19 < IMM19_COUNT && top < 256
    ensures var w := Join(low, imm19, top); Low(w) == low && Imm19(w) == imm19 && Top(w) == top
  {
    DivMod32(low, imm19 + IMM19_COUNT * top);
    DivModImm19(imm19, top);
  }

  lemma SplitJoins(w: word)
    ensures Join(Low(w), Imm19(w), Top(w)) == w
  {}

  // (insn & 0x9F000000) == 0x10000000, and == 0x90000000
  predicate IsAdr(w: word) { Top(w) / 128 == 0 && Top(w) % 32 == 16 }
  predicate IsAdrp(w: word) { Top(w) / 128 == 1 && Top(w) % 32 == 16 }

  // (insn & 0x3B000000) == 0x18000000
  predicate IsLdrLiteral(w: word) { Top(w) / 8 % 8 == 3 && Top(w) % 4 == 0 }

  predicate IsBranchImmediate(w: word) {
    || Top(w) / 4 % 32 == 5                     // B and BL: & 0x7C000000 == 0x14000000
    || (Top(w) == 0x54 && Low(w) / 16 == 0)     // B.cond: & 0xFF000010 == 0x54000000
    || Top(w) / 2 % 64 == 26                    // CBZ and CBNZ: & 0x7E000000 == 0x34000000
    || Top(w) / 2 % 64 == 27                    // TBZ and TBNZ: & 0x7E000000 == 0x36000000
  }

  predicate IsPcRelative(w: word) {
    IsAdr(w) || IsAdrp(w) || IsLdrLiteral(w)
  }

  // immhi:immlo, sign extended from 21 bits.
  function AdrOffset(w: word): (offset: int)
    ensures Fits(offset, IMM21_HALF)
  {
    Signed(4 * Imm19(w) + Top(w) / 32 % 4, IMM21_HALF)
  }

  function SetAdrOffset(w: word, offset: int): word
    requires Fits(offset, IMM21_HALF)
  {
    var imm := Unsigned(offset, IMM21_HALF);
    Join(Low(w), imm / 4, Top(w) / 128 * 128 + imm % 4 * 32 + Top(w) % 32)
  }

  function LdrOffset(w: word): (offset: int)
    ensures offset % 4 == 0 && Fits(offset, IMM21_HALF)
  {
    Signed(Imm19(w), IMM19_HALF) * 4
  }

  function SetLdrOffset(w: word, offset: int): word
    requires offset % 4 == 0 && Fits(offset, IMM21_HALF)
  {
    Join(Low(w), Unsigned(offset / 4, IMM19_HALF), Top(w))
  }

  // The fields around the operand that decide what the instruction is.
  predicate SameClass(v: word, w: word) {
    && IsAdr(v) == IsAdr(w) && IsAdrp(v) == IsAdrp(w) && IsLdrLiteral(v) == IsLdrLiteral(w)
    && IsBranchImmediate(v) == IsBranchImmediate(w)
  }

  lemma TopFields(op: nat, immlo: nat, group: nat)
    requires op < 2 && immlo < 4 && group < 32
    ensures var top := op * 128 + immlo * 32 + group;
      top / 128 == op && top / 32 % 4 == immlo && top % 32 == group
  {}

  lemma TopSplits(top: nat)
    requires top < 256
    ensures top == top / 128 * 128 + top / 32 % 4 * 32 + top % 32
  {}

  // Bits 28..24 are 10000 in ADR and ADRP, which no branch and no literal load has.
  lemma AdrIsNothingElse(w: word)
    requires Top(w) % 32 == 16
    ensures !IsLdrLiteral(w) && !IsBranchImmediate(w)
  {
    var q := Top(w) / 32;
    assert Top(w) == 32 * q + 16;
    assert Top(w) / 8 == 4 * q + 2 && Top(w) / 4 == 8 * q + 4 && Top(w) / 2 == 16 * q + 8;
    NoSharedTop(q);
  }

  lemma NoSharedTop(q: nat)
    requires q < 8
    ensures (4 * q + 2) % 8 != 3 && (8 * q + 4) % 32 != 5 && (16 * q + 8) % 64 != 26 && (16 * q + 8) % 64 != 27
  {}

  lemma SetAdrReadsBack(w: word, offset: int)
    requires (IsAdr(w) || IsAdrp(w)) && Fits(offset, IMM21_HALF)
    ensures var v := SetAdrOffset(w, offset);
      && AdrOffset(v) == offset && SameClass(v, w)
      && SetAdrOffset(v, AdrOffset(w)) == w
      && SetAdrOffset(v, 0) == SetAdrOffset(w, 0)
  {
    var imm := Unsigned(offset, IMM21_HALF);
    var top := Top(w) / 128 * 128 + imm % 4 * 32 + Top(w) % 32;
    JoinSplits(Low(w), imm / 4, top);
    TopFields(Top(w) / 128, imm % 4, Top(w) % 32);
    AdrIsNothingElse(w);
    AdrIsNothingElse(SetAdrOffset(w, offset));
    RestoreAdr(w, SetAdrOffset(w, offset));
  }

  lemma RestoreAdr(w: word, v: word)
    requires Low(v) == Low(w) && Top(v) / 128 == Top(w) / 128 && Top(v) % 32 == Top(w) % 32
    ensures SetAdrOffset(v, AdrOffset(w)) == w
    ensures SetAdrOffset(v, 0) == SetAdrOffset(w, 0)
  {
    var imm := Unsigned(AdrOffset(w), IMM21_HALF);
    assert imm == 4 * Imm19(w) + Top(w) / 32 % 4;
    assert imm / 4 == Imm19(w) && imm % 4 == Top(w) / 32 % 4;
    TopSplits(Top(w));
    SplitJoins(w);
  }

  lemma SetLdrReadsBack(w: word, offset: int)
    requires IsLdrLiteral(w) && offset % 4 == 0 && Fits(offset, IMM21_HALF)
    ensures var v := SetLdrOffset(w, offset);
      && LdrOffset(v) == offset && SameClass(v, w)
      && SetLdrOffset(v, LdrOffset(w)) == w
      && SetLdrOffset(v, 0) == SetLdrOffset(w, 0)
  {
    JoinSplits(Low(w), Unsigned(offset / 4, IMM19_HALF), Top(w));
    SplitJoins(w);
    assert LdrOffset(w) / 4 == Signed(Imm19(w), IMM19_HALF);
  }
}

// The instruction words by their fields (Arm Architecture Reference Manual DDI 0487, sections C4.1 and C6.2), assembled
// and not tested: which words the classifiers answer to, and which operand they read.
module Arm64Encoding {
  import opened Bytes
  import opened Arm64Word

  // Instructions with a PC-relative operand: `offset` in bytes, `pages` in pages, `words` in words.
  datatype PcRelative =
    | Adr(offset: int, rd: nat)
    | Adrp(pages: int, rd: nat)
    | LdrLiteral(opc: nat, v: nat, words: int, rt: nat)

  // Branches to a PC-relative target: B and BL, B.cond, CBZ and CBNZ, TBZ and TBNZ.
  datatype Branch =
    | Jump(link: nat, imm26: nat)
    | Conditional(imm19: nat, cond: nat)
    | Compare(sf: nat, op: nat, imm19: nat, rt: nat)
    | TestBit(b5: nat, op: nat, b40: nat, imm14: nat, rt: nat)

  predicate PcRelativeOk(p: PcRelative) {
    match p
    case Adr(offset, rd) => -0x10_0000 <= offset < 0x10_0000 && rd < 32
    case Adrp(pages, rd) => -0x10_0000 <= pages < 0x10_0000 && rd < 32
    case LdrLiteral(opc, v, words, rt) => opc < 4 && v < 2 && -0x4_0000 <= words < 0x4_0000 && rt < 32
  }

  predicate BranchOk(b: Branch) {
    match b
    case Jump(link, imm26) => link < 2 && imm26 < 0x400_0000
    case Conditional(imm19, cond) => imm19 < 0x8_0000 && cond < 16
    case Compare(sf, op, imm19, rt) => sf < 2 && op < 2 && imm19 < 0x8_0000 && rt < 32
    case TestBit(b5, op, b40, imm14, rt) => b5 < 2 && op < 2 && b40 < 32 && imm14 < 0x4000 && rt < 32
  }

  // op at bit 31, the low two bits of the immediate at 29, 10000 at 24, its other bits at 5, the register at 0.
  function AdrBits(op: nat, imm: nat, rd: nat): nat {
    op * 0x8000_0000 + imm % 4 * 0x2000_0000 + 0x1000_0000 + imm / 4 * 32 + rd
  }

  // opc at bit 30, 011 at 27, V at 26, the immediate at 5, the register at 0.
  function LdrBits(opc: nat, v: nat, imm: nat, rt: nat): nat {
    opc * 0x4000_0000 + 0x1800_0000 + v * 0x400_0000 + imm * 32 + rt
  }

  function PcRelativeBits(p: PcRelative): (n: nat)
    requires PcRelativeOk(p)
    ensures n < 0x1_0000_0000
  {
    match p
    case Adr(offset, rd) => AdrBits(0, if offset < 0 then offset + 0x20_0000 else offset, rd)
    case Adrp(pages, rd) => AdrBits(1, if pages < 0 then pages + 0x20_0000 else pages, rd)
    case LdrLiteral(opc, v, words, rt) => LdrBits(opc, v, if words < 0 then words + 0x8_0000 else words, rt)
  }

  function BranchBits(b: Branch): (n: nat)
    requires BranchOk(b)
    ensures n < 0x1_0000_0000
  {
    match b
    case Jump(link, imm26) => link * 0x8000_0000 + 0x1400_0000 + imm26
    case Conditional(imm19, cond) => 0x5400_0000 + imm19 * 32 + cond
    case Compare(sf, op, imm19, rt) => sf * 0x8000_0000 + 0x3400_0000 + op * 0x100_0000 + imm19 * 32 + rt
    case TestBit(b5, op, b40, imm14, rt) =>
      b5 * 0x8000_0000 + 0x3600_0000 + op * 0x100_0000 + b40 * 0x8_0000 + imm14 * 32 + rt
  }

  // The word of this instruction.
  predicate Encodes(w: word, p: PcRelative) {
    PcRelativeOk(p) && w == PcRelativeBits(p)
  }

  predicate EncodesBranch(w: word, b: Branch) {
    BranchOk(b) && w == BranchBits(b)
  }

  // BR: 1101011 at bit 25, 0000 at 21, 11111 at 16, the register at 5, all else 0.
  predicate IsBranchRegister(w: word) {
    w / 1024 == 0x6B * 0x8000 + 0x1F * 0x40 && w % 32 == 0
  }

  function BranchRegister(w: word): nat {
    w / 32 % 32
  }

  // A load of 64 bits from a PC-relative literal: opc 01, V 0.
  predicate IsLiteralLoad64(w: word) {
    w / 0x100_0000 == 0x58
  }

  // ---- Branches

  lemma JoinFields(w: word, low: nat, imm19: nat, top: nat)
    requires low < 32 && imm19 < IMM19_COUNT && top < 256 && w == low + 32 * imm19 + 0x100_0000 * top
    ensures Low(w) == low && Imm19(w) == imm19 && Top(w) == top
  {
    assert w == Join(low, imm19, top);
    JoinSplits(low, imm19, top);
  }

  lemma FieldsOf(w: word)
    ensures w == Low(w) + 32 * Imm19(w) + 0x100_0000 * Top(w)
  {
    SplitJoins(w);
  }

  lemma TopOfClass(top: nat, q: nat, r: nat)
    requires top < 256 && q < 2
    ensures r < 4 && top == 128 * q + 20 + r ==> top / 4 % 32 == 5
    ensures r < 2 && top == 128 * q + 52 + r ==> top / 2 % 64 == 26
    ensures r < 2 && top == 128 * q + 54 + r ==> top / 2 % 64 == 27
  {
    if r < 4 && top == 128 * q + 20 + r {
      assert top / 4 == 32 * q + 5;
    }
    if r < 2 && (top == 128 * q + 52 + r || top == 128 * q + 54 + r) {
      assert top / 2 == 64 * q + 26 || top / 2 == 64 * q + 27;
    }
  }

  lemma ClassOfTop(top: nat)
    requires top < 256
    ensures top / 4 % 32 == 5 ==> top == 128 * (top / 128) + 20 + top % 4
    ensures top / 2 % 64 == 26 ==> top == 128 * (top / 128) + 52 + top % 2
    ensures top / 2 % 64 == 27 ==> top == 128 * (top / 128) + 54 + top % 2
  {
  }

  lemma BranchIsBranch(w: word, b: Branch)
    requires EncodesBranch(w, b)
    ensures IsBranchImmediate(w)
  {
    hide Low, Imm19, Top;
    match b {
      case Jump(link, imm26) =>
        var top := 128 * link + 20 + imm26 / 0x100_0000;
        assert imm26 == imm26 % 32 + 32 * (imm26 / 32 % 0x8_0000) + 0x100_0000 * (imm26 / 0x100_0000);
        JoinFields(w, imm26 % 32, imm26 / 32 % 0x8_0000, top);
        TopOfClass(top, link, imm26 / 0x100_0000);
      case Conditional(imm19, cond) => JoinFields(w, cond, imm19, 0x54);
      case Compare(sf, op, imm19, rt) =>
        JoinFields(w, rt, imm19, 128 * sf + 52 + op);
        TopOfClass(128 * sf + 52 + op, sf, op);
      case TestBit(b5, op, b40, imm14, rt) =>
        JoinFields(w, rt, b40 * 0x4000 + imm14, 128 * b5 + 54 + op);
        TopOfClass(128 * b5 + 54 + op, b5, op);
    }
  }

  lemma BranchHasFields(w: word) returns (b: Branch)
    requires IsBranchImmediate(w)
    ensures EncodesBranch(w, b)
  {
    hide Low, Imm19, Top;
    var low, imm19, top := Low(w), Imm19(w), Top(w);
    FieldsOf(w);
    ClassOfTop(top);
    if top / 4 % 32 == 5 {
      b := Jump(top / 128, low + 32 * imm19 + 0x100_0000 * (top % 4));
    } else if top == 0x54 && low / 16 == 0 {
      b := Conditional(imm19, low);
    } else if top / 2 % 64 == 26 {
      b := Compare(top / 128, top % 2, imm19, low);
    } else {
      assert imm19 == imm19 / 0x4000 * 0x4000 + imm19 % 0x4000;
      b := TestBit(top / 128, top % 2, imm19 / 0x4000, imm19 % 0x4000, low);
    }
  }

  // The words install() refuses to move are exactly the branches to a PC-relative target.
  lemma BranchesExactly(w: word)
    ensures IsBranchImmediate(w) <==> exists b :: EncodesBranch(w, b)
  {
    hide IsBranchImmediate, EncodesBranch;
    if IsBranchImmediate(w) {
      var b := BranchHasFields(w);
    }
    if b :| EncodesBranch(w, b) {
      BranchIsBranch(w, b);
    }
  }

  // ---- PC-relative operands

  lemma AdrFields(w: word, op: nat, imm: nat, rd: nat)
    requires op < 2 && imm < 0x20_0000 && rd < 32 && w == AdrBits(op, imm, rd)
    ensures Low(w) == rd && Imm19(w) == imm / 4
    ensures Top(w) / 128 == op && Top(w) % 32 == 16 && Top(w) / 32 % 4 == imm % 4
  {
    hide Low, Imm19, Top;
    JoinFields(w, rd, imm / 4, 128 * op + imm % 4 * 32 + 16);
    TopFields(op, imm % 4, 16);
  }

  lemma LdrFields(w: word, opc: nat, v: nat, imm: nat, rt: nat)
    requires opc < 4 && v < 2 && imm < 0x8_0000 && rt < 32 && w == LdrBits(opc, v, imm, rt)
    ensures Low(w) == rt && Imm19(w) == imm && Top(w) == 64 * opc + 24 + 4 * v
    ensures Top(w) / 8 % 8 == 3 && Top(w) % 4 == 0
  {
    hide Low, Imm19, Top;
    JoinFields(w, rt, imm, 64 * opc + 24 + 4 * v);
    assert (64 * opc + 24 + 4 * v) / 8 == 8 * opc + 3;
  }

  // What the classifiers and the operand readers make of an assembled instruction.
  lemma EncodedIsRead(w: word, p: PcRelative)
    requires Encodes(w, p)
    ensures IsAdr(w) <==> p.Adr?
    ensures IsAdrp(w) <==> p.Adrp?
    ensures IsLdrLiteral(w) <==> p.LdrLiteral?
    ensures !IsBranchImmediate(w)
    ensures p.Adr? ==> AdrOffset(w) == p.offset
    ensures p.Adrp? ==> AdrOffset(w) == p.pages
    ensures p.LdrLiteral? ==> LdrOffset(w) == 4 * p.words
  {
    hide Low, Imm19, Top;
    match p {
      case Adr(offset, rd) => AdrIsRead(w, 0, offset, rd);
      case Adrp(pages, rd) => AdrIsRead(w, 1, pages, rd);
      case LdrLiteral(opc, v, words, rt) =>
        LdrFields(w, opc, v, if words < 0 then words + 0x8_0000 else words, rt);
        LdrIsNoBranch(64 * opc + 24 + 4 * v, opc, v);
    }
  }

  lemma AdrIsRead(w: word, op: nat, offset: int, rd: nat)
    requires op < 2 && Fits(offset, 0x10_0000) && rd < 32
    requires w == AdrBits(op, if offset < 0 then offset + 0x20_0000 else offset, rd)
    ensures IsAdr(w) <==> op == 0
    ensures IsAdrp(w) <==> op == 1
    ensures !IsLdrLiteral(w) && !IsBranchImmediate(w) && AdrOffset(w) == offset
  {
    hide Low, Imm19, Top, IsLdrLiteral, IsBranchImmediate;
    AdrFields(w, op, if offset < 0 then offset + 0x20_0000 else offset, rd);
    AdrIsNothingElse(w);
  }

  lemma LdrIsNoBranch(top: nat, opc: nat, v: nat)
    requires opc < 4 && v < 2 && top == 64 * opc + 24 + 4 * v
    ensures top % 32 == 24 || top % 32 == 28
    ensures top / 4 % 32 != 5 && top != 0x54 && top / 2 % 64 != 26 && top / 2 % 64 != 27
  {
    assert top / 4 == 16 * opc + 6 + v && top / 2 == 32 * opc + 12 + 2 * v;
  }

  lemma PcRelativeHasFields(w: word) returns (p: PcRelative)
    requires IsPcRelative(w)
    ensures Encodes(w, p)
  {
    hide Low, Imm19, Top;
    var low, imm19, top := Low(w), Imm19(w), Top(w);
    FieldsOf(w);
    if IsLdrLiteral(w) {
      LdrTop(top);
      p := LdrLiteral(top / 64, top / 4 % 2, Signed(imm19, 0x4_0000), low);
    } else {
      var imm := 4 * imm19 + top / 32 % 4;
      assert imm / 4 == imm19 && imm % 4 == top / 32 % 4;
      TopSplits(top);
      p := if top / 128 == 0 then Adr(Signed(imm, 0x10_0000), low) else Adrp(Signed(imm, 0x10_0000), low);
    }
  }

  lemma LdrTop(top: nat)
    requires top < 256 && top / 8 % 8 == 3 && top % 4 == 0
    ensures top == 64 * (top / 64) + 24 + 4 * (top / 4 % 2)
  {
  }

  lemma PcRelativeExactly(w: word)
    ensures IsPcRelative(w) <==> exists p :: Encodes(w, p)
  {
    hide IsAdr, IsAdrp, IsLdrLiteral, IsBranchImmediate, Encodes;
    if IsPcRelative(w) {
      var p := PcRelativeHasFields(w);
    }
    if p :| Encodes(w, p) {
      EncodedIsRead(w, p);
    }
  }
}

module Arm64 {
  import opened Bytes
  import opened Wrappers
  import opened Instructions
  import opened Arm64Word
  import E = Arm64Encoding

  const PAGE := 4096

  function Word(bytes: seq<byte>): word
    requires |bytes| >= 4
  {
    LittleEndianRestores(bytes[..4]);
    assert Pow256(4) == UINT32_LIMIT;
    FromLittleEndian(bytes[..4])
  }

  function WordBytes(w: word): (s: seq<byte>)
    ensures |s| == 4
  {
    LittleEndian(w, 4)
  }

  lemma WordReadsBack(w: word, rest: seq<byte>)
    ensures Word(WordBytes(w) + rest) == w
  {
    assert Pow256(4) == UINT32_LIMIT;
    LittleEndianReadsBack(w, 4);
    assert (WordBytes(w) + rest)[..4] == WordBytes(w);
  }

  lemma WordRestores(bytes: seq<byte>)
    requires |bytes| == 4
    ensures WordBytes(Word(bytes)) == bytes
  {
    LittleEndianRestores(bytes);
    assert bytes[..4] == bytes;
  }

  function Decode(code: seq<byte>): Option<Instruction> {
    if |code| < 4 then None
    else Some(Instruction(4, IsBranchImmediate(Word(code)), IsPcRelative(Word(code)), 0, 0))
  }

  function PageOf(address: int): int {
    address / PAGE * PAGE
  }

  // What a PC-relative instruction at `at` refers to: a page for ADRP, an address for ADR and literal loads.
  function WordOperand(at: int, w: word): Option<int> {
    if IsAdrp(w) then Some(PageOf(at) + AdrOffset(w) * PAGE)
    else if IsAdr(w) then Some(at + AdrOffset(w))
    else if IsLdrLiteral(w) then Some(at + LdrOffset(w))
    else None
  }

  function WordShape(w: word): word {
    if IsAdrp(w) || IsAdr(w) then SetAdrOffset(w, 0)
    else if IsLdrLiteral(w) then SetLdrOffset(w, 0)
    else w
  }

  function RelocateWord(from: int, to: int, w: word): Option<word> {
    if IsAdrp(w) then
      var page := PageOf(from) + AdrOffset(w) * PAGE;
      var delta := (page - PageOf(to)) / PAGE;
      if delta > 0xFFFFF || delta < -0x100000 then None else Some(SetAdrOffset(w, delta))
    else if IsAdr(w) then
      var delta := from + AdrOffset(w) - to;
      if delta > 0xFFFFF || delta < -0x100000 then None else Some(SetAdrOffset(w, delta))
    else if IsLdrLiteral(w) then
      var delta := from + LdrOffset(w) - to;
      if delta % 4 != 0 || delta > 0xFFFFC || delta < -0x100000 then None else Some(SetLdrOffset(w, delta))
    else Some(w)
  }

  // The operand is in reach of the place the word moves to, in the units its field counts in.
  predicate Representable(from: int, to: int, w: word) {
    var target := WordOperand(from, w);
    if IsAdrp(w) then Fits(target.value / PAGE - to / PAGE, IMM21_HALF)
    else if IsAdr(w) then Fits(target.value - to, IMM21_HALF)
    else if IsLdrLiteral(w) then (target.value - to) % 4 == 0 && Fits((target.value - to) / 4, IMM19_HALF)
    else true
  }

  lemma PageArithmetic(at: int, pages: int)
    ensures (PageOf(at) + pages * PAGE) / PAGE == at / PAGE + pages
  {}

  lemma RelocateAdrp(from: int, to: int, w: word)
    requires IsAdrp(w)
    ensures RelocateWord(from, to, w).Some? <==> Representable(from, to, w)
    ensures RelocateWord(from, to, w).Some? ==> RelocatedWord(from, to, w, RelocateWord(from, to, w).value)
  {
    hide SetAdrOffset, AdrOffset, SetLdrOffset, LdrOffset, IsLdrLiteral, IsBranchImmediate;
    PageArithmetic(from, AdrOffset(w));
    var delta := from / PAGE + AdrOffset(w) - to / PAGE;
    assert PageOf(from) + AdrOffset(w) * PAGE - PageOf(to) == delta * PAGE;
    if Fits(delta, IMM21_HALF) {
      SetAdrReadsBack(w, delta);
      PageArithmetic(to, delta);
      assert PageOf(to) + delta * PAGE - PageOf(from) == AdrOffset(w) * PAGE;
    }
  }

  predicate RelocatedWord(from: int, to: int, w: word, v: word) {
    && SameClass(v, w)
    && WordOperand(to, v) == WordOperand(from, w)
    && WordShape(v) == WordShape(w)
    && RelocateWord(to, from, v) == Some(w)
  }

  lemma RelocateWordExact(from: int, to: int, w: word)
    ensures RelocateWord(from, to, w).Some? <==> Representable(from, to, w)
    ensures RelocateWord(from, to, w).Some? ==> RelocatedWord(from, to, w, RelocateWord(from, to, w).value)
  {
    if IsAdrp(w) {
      RelocateAdrp(from, to, w);
    } else if IsAdr(w) {
      if Representable(from, to, w) {
        SetAdrReadsBack(w, from + AdrOffset(w) - to);
      }
    } else if IsLdrLiteral(w) {
      if Representable(from, to, w) {
        SetLdrReadsBack(w, from + LdrOffset(w) - to);
      }
    }
  }

  // ---- The same on assembled instructions

  // Decoding refuses no word. It reports a relative branch for the words of branches and a PC-relative operand for those of
  // address computations and literal loads, and for no other word.
  lemma DecodeExactly(code: seq<byte>)
    requires |code| >= 4
    ensures Decode(code).Some? && Decode(code).value.length == 4
    ensures Decode(code).value.relativeBranch <==> exists b :: E.EncodesBranch(Word(code), b)
    ensures Decode(code).value.ripRelative <==> exists p :: E.Encodes(Word(code), p)
  {
    hide IsBranchImmediate, IsPcRelative, E.Encodes, E.EncodesBranch, Word;
    E.BranchesExactly(Word(code));
    E.PcRelativeExactly(Word(code));
  }

  function Target(at: int, p: E.PcRelative): int {
    match p
    case Adr(offset, _) => at + offset
    case Adrp(pages, _) => at - at % 4096 + 4096 * pages
    case LdrLiteral(_, _, words, _) => at + 4 * words
  }

  lemma OperandExactly(at: int, w: word, p: E.PcRelative)
    requires E.Encodes(w, p)
    ensures WordOperand(at, w) == Some(Target(at, p))
  {
    hide IsAdr, IsAdrp, IsLdrLiteral, E.Encodes, AdrOffset, LdrOffset;
    E.EncodedIsRead(w, p);
  }

  // The instruction with its operand counted from `to` instead of `from`: the same target, if its field reaches that far.
  function Moved(from: int, to: int, p: E.PcRelative): (r: Option<E.PcRelative>)
    ensures r.Some? && E.PcRelativeOk(p) ==> E.PcRelativeOk(r.value) && Target(to, r.value) == Target(from, p)
  {
    match p
    case Adr(offset, rd) =>
      var d := from + offset - to;
      if -0x10_0000 <= d < 0x10_0000 then Some(E.Adr(d, rd)) else None
    case Adrp(pages, rd) =>
      var d := from / 4096 + pages - to / 4096;
      if -0x10_0000 <= d < 0x10_0000 then Some(E.Adrp(d, rd)) else None
    case LdrLiteral(opc, v, words, rt) =>
      var d := from + 4 * words - to;
      if d % 4 == 0 && -0x10_0000 <= d < 0x10_0000 then Some(E.LdrLiteral(opc, v, d / 4, rt)) else None
  }

  lemma SetAdrEncodes(w: word, op: nat, imm: nat, rd: nat, delta: int)
    requires op < 2 && imm < 0x20_0000 && rd < 32 && w == E.AdrBits(op, imm, rd) && Fits(delta, IMM21_HALF)
    ensures SetAdrOffset(w, delta) == E.AdrBits(op, if delta < 0 then delta + 0x20_0000 else delta, rd)
  {
    hide Low, Top;
    E.AdrFields(w, op, imm, rd);
  }

  lemma SetLdrEncodes(w: word, opc: nat, v: nat, imm: nat, rt: nat, delta: int)
    requires opc < 4 && v < 2 && imm < 0x8_0000 && rt < 32 && w == E.LdrBits(opc, v, imm, rt)
    requires delta % 4 == 0 && Fits(delta, IMM21_HALF)
    ensures SetLdrOffset(w, delta) == E.LdrBits(opc, v, if delta < 0 then delta / 4 + 0x8_0000 else delta / 4, rt)
  {
    hide Low, Top;
    E.LdrFields(w, opc, v, imm, rt);
  }

  // Relocation is what it is said to be: the word of the instruction with the same target counted from the new place, or a
  // refusal when that does not fit; any other word is copied.
  lemma RelocateEncoded(from: int, to: int, w: word, p: E.PcRelative)
    requires E.Encodes(w, p)
    ensures RelocateWord(from, to, w) == match Moved(from, to, p) case None => None case Some(q) => Some(E.PcRelativeBits(q))
  {
    hide IsAdr, IsAdrp, IsLdrLiteral, SetAdrOffset, SetLdrOffset, E.AdrBits, E.LdrBits;
    E.EncodedIsRead(w, p);
    match p {
      case Adr(offset, rd) =>
        if Fits(from + offset - to, IMM21_HALF) {
          SetAdrEncodes(w, 0, if offset < 0 then offset + 0x20_0000 else offset, rd, from + offset - to);
        }
      case Adrp(pages, rd) =>
        PageDistance(from, to, pages);
        var d := from / 4096 + pages - to / 4096;
        if Fits(d, IMM21_HALF) {
          SetAdrEncodes(w, 1, if pages < 0 then pages + 0x20_0000 else pages, rd, d);
        }
      case LdrLiteral(opc, v, words, rt) =>
        var d := from + 4 * words - to;
        if d % 4 == 0 && Fits(d, IMM21_HALF) {
          SetLdrEncodes(w, opc, v, if words < 0 then words + 0x8_0000 else words, rt, d);
        }
    }
  }

  lemma PageDistance(from: int, to: int, pages: int)
    ensures (PageOf(from) + pages * PAGE - PageOf(to)) / PAGE == from / 4096 + pages - to / 4096
  {
    assert PageOf(from) + pages * PAGE - PageOf(to) == (from / 4096 + pages - to / 4096) * PAGE;
  }

  lemma OthersAreCopied(from: int, to: int, w: word)
    requires forall p :: !E.Encodes(w, p)
    ensures RelocateWord(from, to, w) == Some(w)
  {
    hide IsAdr, IsAdrp, IsLdrLiteral, E.Encodes;
    E.PcRelativeExactly(w);
  }

  predicate Instructionwise(bytes: seq<byte>, ins: Instruction) {
    |bytes| == 4 && Decode(bytes) == Some(ins)
  }

  function Operand(at: int, bytes: seq<byte>): Option<int>
    requires |bytes| >= 4
  {
    WordOperand(at, Word(bytes))
  }

  function Shape(bytes: seq<byte>): seq<byte>
    requires |bytes| >= 4
  {
    WordBytes(WordShape(Word(bytes)))
  }

  function Relocate(from: int, to: int, bytes: seq<byte>): (r: Option<seq<byte>>)
    requires |bytes| >= 4
    ensures r.Some? ==> |r.value| == 4
  {
    match RelocateWord(from, to, Word(bytes))
    case None => None
    case Some(w) => Some(WordBytes(w))
  }

  // Relocation succeeds exactly when the re-based operand fits its field (21 signed bits of bytes or pages, 19
  // signed bits of words); then the operand keeps its absolute address or page, only its field differs, the
  // result is classified as before, and relocating back restores the original bytes.
  lemma RelocateExact(from: int, to: int, bytes: seq<byte>, ins: Instruction)
    requires Instructionwise(bytes, ins)
    ensures Relocate(from, to, bytes).Some? <==> Representable(from, to, Word(bytes))
    ensures Relocate(from, to, bytes).Some? ==>
      var r := Relocate(from, to, bytes).value;
      && Instructionwise(r, ins)
      && (forall rest: seq<byte> :: Decode(r + rest) == Some(ins))
      && Operand(to, r) == Operand(from, bytes)
      && Shape(r) == Shape(bytes)
      && Relocate(to, from, r) == Some(bytes)
  {
    var w := Word(bytes);
    RelocateWordExact(from, to, w);
    if RelocateWord(from, to, w).Some? {
      var v := RelocateWord(from, to, w).value;
      var r := WordBytes(v);
      forall rest: seq<byte> ensures Word(r + rest) == v {
        WordReadsBack(v, rest);
      }
      assert r + [] == r;
      assert Word(r) == v;
      WordRestores(bytes);
    }
  }

  // Shape and operand together are the whole word: nothing of it is lost in describing it by them.
  lemma ShapeAndOperandDecide(at: int, v: word, w: word)
    requires WordShape(v) == WordShape(w) && WordOperand(at, v) == WordOperand(at, w)
    ensures v == w
  {
    ShapeKeepsClass(v);
    ShapeKeepsClass(w);
  }

  lemma ShapeKeepsClass(w: word)
    ensures SameClass(WordShape(w), w)
    ensures IsAdr(w) || IsAdrp(w) ==> SetAdrOffset(WordShape(w), AdrOffset(w)) == w
    ensures !IsAdr(w) && !IsAdrp(w) && IsLdrLiteral(w) ==> SetLdrOffset(WordShape(w), LdrOffset(w)) == w
  {
    hide SetAdrOffset, SetLdrOffset, IsBranchImmediate;
    if IsAdr(w) || IsAdrp(w) {
      SetAdrReadsBack(w, 0);
    } else if IsLdrLiteral(w) {
      SetLdrReadsBack(w, 0);
    }
  }

  // A literal load of x17 from eight bytes on, a branch to x17, then the eight bytes it loads: the absolute target.
  const JUMP_SIZE := 16
  const LDR_X17_8: word := 0x58000051
  const BR_X17: word := 0xD61F0220

  function Jump(to: nat): (s: seq<byte>)
    ensures |s| == JUMP_SIZE
  {
    WordBytes(LDR_X17_8) + WordBytes(BR_X17) + LittleEndian(to, 8)
  }

  // The first word of the jump is a 64-bit load into x17 of the literal two words on, the second a branch to x17, and the
  // literal reads back as `to`.
  lemma JumpReadsBack(at: int, to: nat, rest: seq<byte>)
    requires to < UINT64_LIMIT
    ensures var code := Jump(to) + rest;
      && Decode(code) == Some(Instruction(4, false, true, 0, 0))
      && E.Encodes(Word(code), E.LdrLiteral(1, 0, 2, 17)) && E.IsLiteralLoad64(Word(code)) && Low(Word(code)) == 17
      && E.IsBranchRegister(Word(code[4..])) && E.BranchRegister(Word(code[4..])) == 17
      && Operand(at, code) == Some(at + 8)
      && FromLittleEndian(code[8..16]) == to
  {
    JumpWords(to, rest);
    JumpLoads(at, Word(Jump(to) + rest));
    JumpBranches();
    hide WordBytes, LittleEndian, FromLittleEndian, Word;
    assert (Jump(to) + rest)[8..16] == LittleEndian(to, 8);
    PointerWidth();
    LittleEndianReadsBack(to, 8);
  }

  lemma JumpWords(to: nat, rest: seq<byte>)
    ensures var code := Jump(to) + rest; Word(code) == LDR_X17_8 && Word(code[4..]) == BR_X17
  {
    hide WordBytes, LittleEndian, Word;
    var code := Jump(to) + rest;
    var tail := LittleEndian(to, 8) + rest;
    assert code == WordBytes(LDR_X17_8) + (WordBytes(BR_X17) + tail);
    WordReadsBack(LDR_X17_8, WordBytes(BR_X17) + tail);
    assert code[4..] == WordBytes(BR_X17) + tail;
    WordReadsBack(BR_X17, tail);
  }

  lemma JumpLoads(at: int, w: word)
    requires w == LDR_X17_8
    ensures E.Encodes(w, E.LdrLiteral(1, 0, 2, 17)) && E.IsLiteralLoad64(w) && Low(w) == 17
    ensures WordOperand(at, w) == Some(at + 8) && IsPcRelative(w) && !IsBranchImmediate(w)
  {
    hide IsAdr, IsAdrp, IsLdrLiteral, IsBranchImmediate;
    E.EncodedIsRead(w, E.LdrLiteral(1, 0, 2, 17));
    OperandExactly(at, w, E.LdrLiteral(1, 0, 2, 17));
  }

  lemma JumpBranches()
    ensures E.IsBranchRegister(BR_X17) && E.BranchRegister(BR_X17) == 17
  {
  }
}
