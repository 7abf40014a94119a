// Bytes, little-endian integers and the failure type shared by the other modules.

module Wrappers {
  datatype Option<+T> = None | Some(value: T)
}

module Bytes {
  type byte = x: int | 0 <= x < 0x100

  const INT32_LIMIT := 0x8000_0000
  const UINT32_LIMIT := 0x1_0000_0000
  const UINT64_LIMIT := 0x1_0000_0000_0000_0000

  function Pow256(n: nat): (p: nat)
    ensures p > 0
  {
    if n == 0 then 1 else 256 * Pow256(n - 1)
  }

  // The low `width` bytes of `x`, least significant first.
  function LittleEndian(x: nat, width: nat): (s: seq<byte>)
    ensures |s| == width
  {
    if width == 0 then [] else [x % 256] + LittleEndian(x / 256, width - 1)
  }

  function FromLittleEndian(s: seq<byte>): nat {
    if s == [] then 0 else s[0] as int + 256 * FromLittleEndian(s[1..])
  }

  lemma {:induction false} LittleEndianReadsBack(x: nat, width: nat)
    requires x < Pow256(width)
    ensures FromLittleEndian(LittleEndian(x, width)) == x
  {
    if width > 0 {
      LittleEndianReadsBack(x / 256, width - 1);
    }
  }

  lemma {:induction false} LittleEndianRestores(s: seq<byte>)
    ensures FromLittleEndian(s) < Pow256(|s|)
    ensures LittleEndian(FromLittleEndian(s), |s|) == s
  {
    if s != [] {
      LittleEndianRestores(s[1..]);
      DivMod256(s[0] as int, FromLittleEndian(s[1..]));
    }
  }

  lemma DivMod256(low: int, high: int)
    requires 0 <= low < 256
    ensures (low + 256 * high) % 256 == low
    ensures (low + 256 * high) / 256 == high
  {}

  lemma PointerWidth()
    ensures Pow256(8) == UINT64_LIMIT
  {
    assert Pow256(8) == 0x1_0000 * Pow256(6);
    assert Pow256(6) == 0x1_0000 * Pow256(4);
    assert Pow256(4) == 0x1_0000 * Pow256(2);
  }

  // Four bytes, least significant first.
  function Four(a: int, b: int, c: int, d: int): int {
    a + 0x100 * b + 0x1_0000 * c + 0x100_0000 * d
  }

  lemma FourBytes(s: seq<byte>)
    requires |s| == 4
    ensures FromLittleEndian(s) == Four(s[0], s[1], s[2], s[3])
  {
    FirstByte(s);
    FirstByte(s[1..]);
    FirstByte(s[2..]);
    FirstByte(s[3..]);
    assert s[1..][1..] == s[2..] && s[2..][1..] == s[3..] && s[3..][1..] == [];
    assert FromLittleEndian([]) == 0;
  }

  lemma FirstByte(s: seq<byte>)
    requires s != []
    ensures FromLittleEndian(s) == s[0] + 0x100 * FromLittleEndian(s[1..])
  {}

  lemma EightBytes(s: seq<byte>)
    requires |s| == 8
    ensures FromLittleEndian(s) == Four(s[0], s[1], s[2], s[3]) + 0x1_0000_0000 * Four(s[4], s[5], s[6], s[7])
  {
    hide FromLittleEndian;
    FirstByte(s);
    FirstByte(s[1..]);
    FirstByte(s[2..]);
    FirstByte(s[3..]);
    assert s[1..][1..] == s[2..] && s[2..][1..] == s[3..] && s[3..][1..] == s[4..];
    FourBytes(s[4..]);
  }

  // A two's complement field of `2 * half` values.
  function Signed(unsigned: int, half: int): int {
    if unsigned >= half then unsigned - 2 * half else unsigned
  }

  function Unsigned(signed: int, half: int): int {
    if signed < 0 then signed + 2 * half else signed
  }

  predicate Fits(x: int, half: int) {
    -half <= x < half
  }

  function ReadInt32(s: seq<byte>): (x: int)
    requires |s| == 4
    ensures Fits(x, INT32_LIMIT)
  {
    LittleEndianRestores(s);
    assert Pow256(4) == UINT32_LIMIT;
    Signed(FromLittleEndian(s), INT32_LIMIT)
  }

  // The two's complement number of four bytes.
  lemma Int32Means(s: seq<byte>)
    requires |s| == 4
    ensures ReadInt32(s) == Four(s[0], s[1], s[2], s[3]) - if s[3] >= 0x80 then 0x1_0000_0000 else 0
  {
    FourBytes(s);
  }

  function WriteInt32(x: int): (s: seq<byte>)
    requires Fits(x, INT32_LIMIT)
    ensures |s| == 4
  {
    LittleEndian(Unsigned(x, INT32_LIMIT), 4)
  }

  lemma Int32ReadsBack(x: int)
    requires Fits(x, INT32_LIMIT)
    ensures ReadInt32(WriteInt32(x)) == x
  {
    assert Pow256(4) == UINT32_LIMIT;
    LittleEndianReadsBack(Unsigned(x, INT32_LIMIT), 4);
  }

  lemma Int32Restores(s: seq<byte>)
    requires |s| == 4
    ensures WriteInt32(ReadInt32(s)) == s
  {
    LittleEndianRestores(s);
    assert Pow256(4) == UINT32_LIMIT;
  }

  // `s` with the bytes from `at` overwritten by `patch`.
  function Splice(s: seq<byte>, at: nat, patch: seq<byte>): (r: seq<byte>)
    requires at + |patch| <= |s|
    ensures |r| == |s|
    ensures r[..at] == s[..at]
    ensures r[at..at + |patch|] == patch
    ensures r[at + |patch|..] == s[at + |patch|..]
  {
    s[..at] + patch + s[at + |patch|..]
  }

  lemma SpliceTwice(s: seq<byte>, at: nat, first: seq<byte>, second: seq<byte>)
    requires |first| == |second| && at + |first| <= |s|
    ensures Splice(Splice(s, at, first), at, second) == Splice(s, at, second)
  {}

  lemma SpliceSame(s: seq<byte>, at: nat, n: nat)
    requires at + n <= |s|
    ensures Splice(s, at, s[at..at + n]) == s
  {}
}
