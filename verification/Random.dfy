// src/random.cpp: the generator, whose state never dies, and rejection sampling, which is exactly flat.

module Random {
  import J = JumpReset

  // ---- The generator (xoroshiro128+, seeded by SplitMix64)

  datatype Words = Words(s0: bv64, s1: bv64)

  predicate Alive(w: Words) {
    w.s0 != 0 || w.s1 != 0
  }

  function Left55(x: bv64): bv64 {
    (x << 55) | (x >> 9)
  }

  function Left36(x: bv64): bv64 {
    (x << 36) | (x >> 28)
  }

  function Right55(x: bv64): bv64 {
    (x >> 55) | (x << 9)
  }

  function Right36(x: bv64): bv64 {
    (x >> 36) | (x << 28)
  }

  function Xor(a: bv64, b: bv64): bv64 {
    a ^ b
  }

  function Stir(x: bv64): bv64 {
    x ^ (x << 14)
  }

  function Output(s0: bv64, s1: bv64): bv64 {
    s0 + s1
  }

  function Next(w: Words): Words {
    var x := Xor(w.s1, w.s0);
    Words(Xor(Left55(w.s0), Stir(x)), Left36(x))
  }

  // The step undone.
  function Previous(w: Words): Words {
    var x := Right36(w.s1);
    var s0 := Right55(Xor(w.s0, Stir(x)));
    Words(s0, Xor(x, s0))
  }

  lemma Rotated36(x: bv64)
    ensures Right36(Left36(x)) == x && Left36(Right36(x)) == x
  {
  }

  lemma Rotated55(x: bv64)
    ensures Right55(Left55(x)) == x && Left55(Right55(x)) == x
  {
  }

  lemma XorCancels(a: bv64, b: bv64)
    ensures Xor(Xor(a, b), b) == a
  {
  }

  lemma NextUndone(w: Words)
    ensures Previous(Next(w)) == w
  {
    hide Left36, Right36, Left55, Right55, Stir, Xor;
    var x := Xor(w.s1, w.s0);
    Rotated36(x);
    XorCancels(Left55(w.s0), Stir(x));
    Rotated55(w.s0);
    XorCancels(w.s1, w.s0);
  }

  lemma PreviousUndone(w: Words)
    ensures Next(Previous(w)) == w
  {
    hide Left36, Right36, Left55, Right55, Stir, Xor;
    var x := Right36(w.s1);
    var s0 := Right55(Xor(w.s0, Stir(x)));
    XorCancels(x, s0);
    Rotated36(w.s1);
    Rotated55(Xor(w.s0, Stir(x)));
    XorCancels(w.s0, Stir(x));
  }

  lemma ZeroStaysZero()
    ensures Next(Words(0, 0)) == Words(0, 0)
  {
  }

  // The step is a bijection that fixes zero, so only zero leads to zero.
  lemma NextIsBijective(w: Words, v: Words)
    ensures Next(w) == Next(v) <==> w == v
    ensures Next(Previous(w)) == w
    ensures Alive(Next(w)) <==> Alive(w)
  {
    hide Next, Previous;
    NextUndone(w);
    NextUndone(v);
    PreviousUndone(w);
    ZeroStaysZero();
    NextUndone(Words(0, 0));
    if !Alive(w) {
      assert w == Words(0, 0);
    }
    if !Alive(Next(w)) {
      assert Next(w) == Words(0, 0);
    }
  }

  function Fold30(x: bv64): bv64 {
    x ^ (x >> 30)
  }

  function Fold27(x: bv64): bv64 {
    x ^ (x >> 27)
  }

  function Fold31(x: bv64): bv64 {
    x ^ (x >> 31)
  }

  function Times1(x: bv64): bv64 {
    x * 0xBF58476D1CE4E5B9
  }

  function Times2(x: bv64): bv64 {
    x * 0x94D049BB133111EB
  }

  function Mix(seed: bv64): bv64 {
    Fold31(Times2(Fold27(Times1(Fold30(seed)))))
  }

  const GOLDEN: bv64 := 0x9E3779B97F4A7C15

  function Bump(seed: bv64): bv64 {
    seed + GOLDEN
  }

  function Seeded(seed: bv64): Words {
    var w := Words(Mix(Bump(seed)), Mix(Bump(Bump(seed))));
    if w.s0 == 0 && w.s1 == 0 then Words(0x853C49E6748FEA9B, 0) else w
  }

  lemma SeededIsAlive(seed: bv64)
    ensures Alive(Seeded(seed))
  {
    hide Mix, Bump;
  }

  lemma Fold30Nonzero(x: bv64)
    ensures Fold30(x) == 0 <==> x == 0
  {
  }

  lemma Fold27Nonzero(x: bv64)
    ensures Fold27(x) == 0 <==> x == 0
  {
  }

  lemma Fold31Nonzero(x: bv64)
    ensures Fold31(x) == 0 <==> x == 0
  {
  }

  lemma Times1Nonzero(x: bv64)
    ensures Times1(x) == 0 <==> x == 0
  {
  }

  lemma Times2Nonzero(x: bv64)
    ensures Times2(x) == 0 <==> x == 0
  {
  }

  // Mixing maps only zero to zero: its folds can be undone and its factors are odd.
  lemma MixNonzero(x: bv64)
    ensures Mix(x) == 0 <==> x == 0
  {
    hide Fold30, Fold27, Fold31, Times1, Times2;
    Fold30Nonzero(x);
    Times1Nonzero(Fold30(x));
    Fold27Nonzero(Times1(Fold30(x)));
    Times2Nonzero(Fold27(Times1(Fold30(x))));
    Fold31Nonzero(Times2(Fold27(Times1(Fold30(x)))));
  }

  // No seed needs the replacement for a zero state.
  lemma ReplacementIsNeverUsed(seed: bv64)
    ensures Seeded(seed) == Words(Mix(Bump(seed)), Mix(Bump(Bump(seed))))
  {
    hide Mix;
    MixNonzero(Bump(seed));
    MixNonzero(Bump(Bump(seed)));
  }

  function Minus(a: bv64, b: bv64): bv64 {
    a - b
  }

  lemma MinusSum(a: bv64, b: bv64)
    ensures Minus(a + b, a) == b && Minus(a + b, b) == a
  {
  }

  lemma MinusOutput(a: bv64, b: bv64)
    ensures Minus(Output(a, b), a) == b && Minus(Output(a, b), b) == a
  {
    hide Minus;
    MinusSum(a, b);
  }

  lemma OutputReaches(a: bv64, result: bv64)
    ensures Output(a, result - a) == result && Output(result - a, a) == result
  {
  }

  // Whichever word of the state is known, every result is given by exactly one value of the other.
  lemma OutputIsBijective(s0: bv64, s1: bv64, result: bv64)
    ensures Output(s0, s1) == result <==> s1 == result - s0
    ensures Output(s0, s1) == result <==> s0 == result - s1
  {
    hide Output, Minus;
    MinusOutput(s0, s1);
    OutputReaches(s0, result);
    MinusOutput(s0, result - s0);
    OutputReaches(s1, result);
    MinusOutput(result - s1, s1);
  }

  // The state after seeding with 0, and its first draws.
  lemma FirstDraws()
    ensures Seeded(0) == Words(0xE220A8397B1DCDAF, 0x6E789E6AA1B965F4)
    ensures var w0 := Seeded(0); var w1 := Next(w0); var w2 := Next(w1);
      && w1 == Words(0x563DD0AEEC0FE6BD, 0xAA4A85B8C583653D) && w2 == Words(0x7799C19D5E1A8473, 0x98C8380FC7755162)
      && Output(w0.s0, w0.s1) == 0x509946A41CD733A3
      && Output(w1.s0, w1.s1) == 0x00885667B1934BFA
      && Output(w2.s0, w2.s1) == 0x1061F9AD258FD5D5
  {
  }

  // What is asked of the generator: a seed, or the next word.
  datatype Request = Reseed(seed: bv64) | Draw

  function After(w: Words, requests: seq<Request>): Words {
    if requests == [] then w
    else
      var before := After(w, requests[..|requests| - 1]);
      match requests[|requests| - 1]
      case Reseed(seed) => Seeded(seed)
      case Draw => Next(before)
  }

  // After any seeding and any number of draws the state is not zero.
  lemma {:induction false} NeverDies(w: Words, requests: seq<Request>)
    requires Alive(w)
    ensures Alive(After(w, requests))
  {
    hide Next, Seeded, Alive;
    if requests != [] {
      var before := requests[..|requests| - 1];
      NeverDies(w, before);
      match requests[|requests| - 1] {
        case Reseed(seed) => SeededIsAlive(seed);
        case Draw => NextIsBijective(After(w, before), After(w, before));
      }
    }
  }

  class Generator {
    var s0: bv64
    var s1: bv64

    ghost function Value(): Words
      reads this
    {
      Words(s0, s1)
    }

    constructor (seed: bv64)
      ensures Value() == Seeded(seed) && Alive(Value())
    {
      hide Mix, Bump;
      new;
      Reseed(seed);
    }

    method Reseed(seed: bv64)
      modifies this
      ensures Value() == Seeded(seed) && Alive(Value())
    {
      hide Mix, Bump;
      var word := Bump(seed);
      s0 := Mix(word);
      word := Bump(word);
      s1 := Mix(word);
      if s0 == 0 && s1 == 0 {
        s0 := 0x853C49E6748FEA9B;
      }
    }

    method Draw() returns (result: bv64)
      modifies this
      ensures Value() == Next(old(Value())) && result == Output(old(s0), old(s1))
      ensures old(Alive(Value())) ==> Alive(Value())
    {
      NextIsBijective(Value(), Value());
      hide Left36, Left55, Stir, Xor, Output, Alive;
      result := Output(s0, s1);
      var x := Xor(s1, s0);
      s0, s1 := Xor(Left55(s0), Stir(x)), Left36(x);
    }
  }

  // ---- Rejection sampling

  const WORDS := 0x1_0000_0000_0000_0000
  const INT_MAX := 0x7FFF_FFFF

  function Limit(span: nat): (limit: nat)
    requires span > 0
  {
    WORDS - 1 - (WORDS - 1) % span
  }

  // How many of the draws below `n` leave this remainder.
  function Hits(n: nat, span: nat, remainder: nat): nat
    requires span > 0
  {
    if n == 0 then 0 else Hits(n - 1, span, remainder) + if (n - 1) % span == remainder then 1 else 0
  }

  lemma Remainder(k: nat, span: nat, j: nat)
    requires j < span
    ensures (k * span + j) % span == j
  {
    var n := k * span + j;
    assert n == (n / span) * span + n % span;
    QuotientIsUnique(k, n / span, span, j, n % span);
  }

  lemma Distribute(a: int, b: int, c: int)
    ensures (a - b) * c == a * c - b * c
  {
  }

  lemma QuotientIsUnique(k: int, q: int, span: int, j: int, r: int)
    requires 0 <= j < span && 0 <= r < span && k * span + j == q * span + r
    ensures k == q && j == r
  {
    Distribute(k, q, span);
    Distribute(q, k, span);
    if k > q {
      Grows(k - q, span);
    } else if k < q {
      Grows(q - k, span);
    }
  }

  lemma {:induction false} HitsInRow(k: nat, span: nat, j: nat, remainder: nat)
    requires j <= span && remainder < span && Hits(k * span, span, remainder) == k
    ensures Hits(k * span + j, span, remainder) == k + if j > remainder then 1 else 0
    decreases j
  {
    hide Hits;
    if j > 0 {
      var n := k * span + (j - 1);
      HitsInRow(k, span, j - 1, remainder);
      Remainder(k, span, j - 1);
      HitsStep(n, span, remainder);
      assert k * span + j == n + 1;
    } else {
      assert k * span + j == k * span;
    }
  }

  lemma HitsStep(n: nat, span: nat, remainder: nat)
    requires span > 0
    ensures Hits(n + 1, span, remainder) == Hits(n, span, remainder) + if n % span == remainder then 1 else 0
  {
  }

  lemma {:induction false} HitsInRows(k: nat, span: nat, remainder: nat)
    requires remainder < span
    ensures Hits(k * span, span, remainder) == k
    decreases k
  {
    if k == 0 {
      assert k * span == 0;
    } else {
      HitsInRows(k - 1, span, remainder);
      HitsInRow(k - 1, span, span, remainder);
      Distribute(k, 1, span);
      assert (k - 1) * span + span == k * span;
    }
  }

  lemma LimitIsMultiple(span: nat)
    requires 0 < span <= WORDS - 1
    ensures Limit(span) == ((WORDS - 1) / span) * span && 0 < Limit(span) < WORDS && WORDS - Limit(span) <= span
  {
    var q := (WORDS - 1) / span;
    assert WORDS - 1 == q * span + (WORDS - 1) % span;
    assert q >= 1;
    assert q * span >= span by { Grows(q, span); }
  }

  lemma Grows(q: int, span: int)
    requires q >= 1 && span >= 0
    ensures q * span >= span
  {
    assert (q - 1) * span >= 0;
  }

  // Every result comes of exactly the same number of accepted draws, and at most `span` of the 2^64 draws are rejected.
  lemma ExactlyFlat(min: int, max: int, value: int)
    requires min < max && max - min <= INT_MAX && min <= value <= max
    ensures var span := max - min + 1;
      && Limit(span) % span == 0
      && Hits(Limit(span), span, value - min) == Limit(span) / span
      && WORDS - Limit(span) <= span
  {
    var span := max - min + 1;
    var q := (WORDS - 1) / span;
    LimitIsMultiple(span);
    HitsInRows(q, span, value - min);
    Remainder(q, span, 0);
    assert Limit(span) / span == q by {
      QuotientIsUnique(Limit(span) / span, q, span, Limit(span) % span, 0);
    }
  }

  // The first draw that is accepted.
  predicate FirstAccepted(draws: seq<nat>, limit: nat, i: nat) {
    i < |draws| && draws[i] < limit && forall j :: 0 <= j < i ==> draws[j] >= limit
  }

  // The do-while loop of uniform(), over the words the generator is going to give.
  method Uniform(min: int, max: int, draws: seq<nat>) returns (value: int, used: nat)
    requires max - min <= INT_MAX
    requires min < max ==> exists i :: 0 <= i < |draws| && draws[i] < Limit(max - min + 1)
    ensures max <= min ==> value == min && used == 0
    ensures min < max ==> used > 0 && FirstAccepted(draws, Limit(max - min + 1), used - 1)
                          && min <= value <= max && (value - min) == draws[used - 1] % (max - min + 1)
  {
    used := 0;
    if max <= min {
      return min, used;
    }
    hide Limit;
    var span := max - min + 1;
    var limit := Limit(span);
    var draw := draws[0];
    used := 1;
    while draw >= limit
      invariant 0 < used <= |draws| && draw == draws[used - 1]
      invariant forall j :: 0 <= j < used - 1 ==> draws[j] >= limit
      decreases |draws| - used
    {
      draw := draws[used];
      used := used + 1;
    }
    value := min + draw % span;
  }

  function Clamp(range: J.Range, v: int): int {
    if v < range.min then range.min else if v > range.max then range.max else v
  }

  // pick(): whatever the bell curve gives, the value is one the range allows.
  method Pick(range: J.Range, uniform: bool, draws: seq<nat>, bell: int) returns (value: int)
    requires range.max - range.min <= INT_MAX
    requires range.min < range.max ==> exists i :: 0 <= i < |draws| && draws[i] < Limit(range.max - range.min + 1)
    ensures J.Picks(range, value)
    ensures range.min < range.max && !uniform && range.min <= bell <= range.max ==> value == bell
  {
    if range.max <= range.min {
      return range.min;
    }
    if uniform {
      var used;
      value, used := Uniform(range.min, range.max, draws);
      return;
    }
    return Clamp(range, bell);
  }
}
