// Raw process memory: which addresses are mapped, and the byte at each.

module Memory {
  import opened Bytes

  type Memory = map<int, byte>

  predicate Mapped(mem: Memory, at: int, n: nat) {
    forall a :: at <= a < at + n ==> a in mem
  }

  predicate Free(mem: Memory, at: int, n: nat) {
    forall a :: at <= a < at + n ==> a !in mem
  }

  function Read(mem: Memory, at: int, n: nat): (s: seq<byte>)
    requires Mapped(mem, at, n)
    ensures |s| == n
    ensures forall i :: 0 <= i < n ==> s[i] == mem[at + i]
  {
    seq(n, i requires 0 <= i < n => mem[at + i])
  }

  function Range(at: int, n: nat): (s: set<int>)
    ensures forall a :: a in s <==> at <= a < at + n
  {
    if n == 0 then {} else Range(at, n - 1) + {at + n - 1}
  }

  function Write(mem: Memory, at: int, bytes: seq<byte>): (r: Memory)
    ensures forall a :: a in r <==> a in mem || at <= a < at + |bytes|
    ensures forall a :: a in r ==> r[a] == if at <= a < at + |bytes| then bytes[a - at] else mem[a]
  {
    mem + map a | a in Range(at, |bytes|) :: bytes[a - at]
  }

  function Unmap(mem: Memory, at: int, n: nat): (r: Memory)
    ensures forall a :: a in r <==> a in mem && !(at <= a < at + n)
    ensures forall a :: a in r ==> r[a] == mem[a]
  {
    map a | a in mem && !(at <= a < at + n) :: mem[a]
  }

  function Above(mem: Memory, at: int): (s: set<int>)
    ensures forall a :: a in s <==> a in mem && at <= a
  {
    set a | a in mem && at <= a
  }

  // `bytes` lie in memory at `at`.
  predicate Holds(mem: Memory, at: int, bytes: seq<byte>) {
    forall a :: at <= a < at + |bytes| ==> a in mem && mem[a] == bytes[a - at]
  }

  // The bytes readable from `at` on, up to the first unmapped address.
  function Window(mem: Memory, at: int): (s: seq<byte>)
    ensures forall a :: at <= a < at + |s| ==> a in mem && s[a - at] == mem[a]
    ensures at + |s| !in mem
    decreases Above(mem, at)
  {
    if at in mem then
      assert Above(mem, at + 1) == Above(mem, at) - {at};
      var rest := Window(mem, at + 1);
      [mem[at]] + rest
    else []
  }

  lemma HoldsRead(mem: Memory, at: int, bytes: seq<byte>)
    ensures Holds(mem, at, bytes) <==> Mapped(mem, at, |bytes|) && Read(mem, at, |bytes|) == bytes
  {
    if Mapped(mem, at, |bytes|) {
      var read := Read(mem, at, |bytes|);
      if Holds(mem, at, bytes) {
        forall i | 0 <= i < |bytes| ensures read[i] == bytes[i] {
          assert mem[at + i] == bytes[at + i - at];
        }
      }
      if read == bytes {
        forall a | at <= a < at + |bytes| ensures mem[a] == bytes[a - at] {
          assert read[a - at] == mem[at + (a - at)];
        }
      }
    }
  }

  lemma HoldsPrefix(mem: Memory, at: int, bytes: seq<byte>)
    requires Holds(mem, at, bytes)
    ensures bytes <= Window(mem, at)
  {
    var w := Window(mem, at);
    assert at + |w| !in mem;
    forall i | 0 <= i < |bytes| ensures w[i] == bytes[i] {
      assert mem[at + i] == bytes[at + i - at];
    }
  }

  lemma HoldsWindow(mem: Memory, at: int, from: nat, n: nat)
    requires from + n <= |Window(mem, at)|
    ensures Holds(mem, at + from, Window(mem, at)[from..from + n])
  {}

  lemma HoldsJoin(mem: Memory, at: int, head: seq<byte>, tail: seq<byte>)
    ensures Holds(mem, at, head + tail) <==> Holds(mem, at, head) && Holds(mem, at + |head|, tail)
  {
    var n := |head|;
    if Holds(mem, at, head + tail) {
      forall a | at + n <= a < at + n + |tail| ensures a in mem && mem[a] == tail[a - (at + n)] {
        assert (head + tail)[a - at] == tail[a - (at + n)];
      }
    }
  }

  lemma ReadPart(mem: Memory, at: int, bytes: seq<byte>, offset: nat, n: nat)
    requires Holds(mem, at, bytes) && offset + n <= |bytes|
    ensures Mapped(mem, at + offset, n) && Read(mem, at + offset, n) == bytes[offset..][..n]
  {}

  predicate Apart(at: int, n: nat, other: int, m: nat) {
    at + n <= other || other + m <= at || n == 0 || m == 0
  }

  lemma FreshIsApart(mem: Memory, at: int, n: nat, other: int, m: nat)
    requires Free(mem, at, n) && Mapped(mem, other, m)
    ensures Apart(at, n, other, m)
  {
    var a := if at <= other then other else at;
    assert at <= a < at + n ==> a !in mem;
    assert other <= a < other + m ==> a in mem;
  }

  lemma FreshHolds(mem: Memory, at: int, block: seq<byte>, other: int, bytes: seq<byte>)
    requires Free(mem, at, |block|) && Holds(mem, other, bytes)
    ensures Apart(at, |block|, other, |bytes|) && Holds(Write(mem, at, block), other, bytes)
  {
    FreshIsApart(mem, at, |block|, other, |bytes|);
  }

  lemma HoldsApart(mem: Memory, at: int, bytes: seq<byte>, other: int, patch: seq<byte>)
    requires Holds(mem, at, bytes) && Apart(at, |bytes|, other, |patch|)
    ensures Holds(Write(mem, other, patch), at, bytes)
  {}

  lemma WriteSame(mem: Memory, at: int, bytes: seq<byte>)
    requires Holds(mem, at, bytes)
    ensures Write(mem, at, bytes) == mem
  {}

  lemma WriteAppend(base: Memory, at: int, done: seq<byte>, more: seq<byte>, mem: Memory, offset: int)
    requires mem == Write(base, at, done) && offset == |done|
    ensures Write(mem, at + offset, more) == Write(base, at, done + more)
  {}

  lemma WriteOver(base: Memory, at: int, zeros: seq<byte>, all: seq<byte>)
    requires |zeros| == |all|
    ensures Write(Write(base, at, zeros), at, all) == Write(base, at, all)
  {}

  // Filling a zeroed block from the front, all of it.
  lemma WriteFills(base: Memory, at: int, zeros: seq<byte>, done: seq<byte>, more: seq<byte>, mem: Memory, offset: int)
    requires mem == Write(Write(base, at, zeros), at, done) && offset == |done| && |zeros| == |done + more|
    ensures Write(mem, at + offset, more) == Write(base, at, done + more)
  {
    WriteAppend(Write(base, at, zeros), at, done, more, mem, offset);
    WriteOver(base, at, zeros, done + more);
  }

  lemma UnmapPartial(mem: Memory, at: int, zeros: seq<byte>, part: seq<byte>)
    requires Free(mem, at, |zeros|) && |part| <= |zeros|
    ensures Unmap(Write(Write(mem, at, zeros), at, part), at, |zeros|) == mem
  {}

  lemma UnmapFresh(mem: Memory, at: int, bytes: seq<byte>)
    requires Free(mem, at, |bytes|)
    ensures Unmap(Write(mem, at, bytes), at, |bytes|) == mem
  {}
}
