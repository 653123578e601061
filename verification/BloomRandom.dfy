/**
 The generator that turns hashes into signature bits (contrib/bloom/blutils.c, `myRand` and `mySrand`).
 C's 32-bit integers and its division that truncates toward zero are written out.
 */
module BloomRandom {

  type int32 = x: int | -0x8000_0000 <= x < 0x8000_0000
  type uint32 = x: int | 0 <= x < 0x1_0000_0000

  /** 2^31 - 1. */
  const MODULUS := 0x7fffffff
  /** 7^5. */
  const MULTIPLIER := 16807
  /** The inverse of the multiplier. */
  const INVERSE := 1407677000

  function TruncDiv(a: int, b: int): int
    requires b > 0
  {
    if a >= 0 then a / b else -((-a) / b)
  }

  function TruncRem(a: int, b: int): int
    requires b > 0
  {
    a - b * TruncDiv(a, b)
  }

  /** Assigning an unsigned word to an int32. */
  function AsInt32(u: uint32): int32 {
    if u < 0x8000_0000 then u else u - 0x1_0000_0000
  }

  /** What the generator is meant to compute. */
  function Next(state: int): (r: int)
    ensures 0 <= r < MODULUS
  {
    (MULTIPLIER * state) % MODULUS
  }

  /** Schrage's decomposition of the product, before the final correction, stays within 32 bits and is congruent to the product. */
  lemma SchrageStep(state: int32)
    ensures var hi, lo := TruncDiv(state, 127773), TruncRem(state, 127773);
      var x := MULTIPLIER * lo - 2836 * hi;
      && -MODULUS < x < MODULUS
      && -MODULUS < MULTIPLIER * lo < MODULUS
      && x == MULTIPLIER * state - MODULUS * hi
  {
    var hi, lo := TruncDiv(state, 127773), TruncRem(state, 127773);
    assert state == 127773 * hi + lo;
    assert 127773 * MULTIPLIER + 2836 == MODULUS;
    if state >= 0 {
      assert 0 <= hi <= 16807 && 0 <= lo < 127773;
    } else {
      assert -16807 <= hi <= 0 && -127773 < lo <= 0;
    }
  }

  lemma Representative(x: int, y: int, k: int)
    requires 0 <= x < MODULUS && x == y + MODULUS * k
    ensures x == y % MODULUS
  {
    assert y % MODULUS == y - MODULUS * (y / MODULUS);
  }

  /** The state of the C file: one static variable. */
  class Generator {
    var next: int32

    constructor (state: int32)
      ensures next == state
    {
      next := state;
    }

    /** `myRand`: for every 32-bit state no intermediate value overflows, and the state becomes the product modulo 2^31 - 1. */
    method MyRand() returns (r: int32)
      modifies this
      ensures next == Next(old(next))
      ensures r == next - 1
    {
      SchrageStep(next);
      ghost var state := next;
      var hi: int32 := TruncDiv(next, 127773);
      var lo: int32 := TruncRem(next, 127773);
      var low: int32 := 16807 * lo;
      var high: int32 := 2836 * hi;
      var x: int32 := low - high;
      if x < 0 {
        x := x + 0x7fffffff;
        Representative(x, MULTIPLIER * state, 1 - hi);
      } else {
        Representative(x, MULTIPLIER * state, -hi);
      }
      next := x;
      return x - 1;
    }

    /** `mySrand`. */
    method MySrand(seed: uint32)
      modifies this
      ensures next == Seeded(seed)
    {
      next := AsInt32(seed);
      next := TruncRem(next, 0x7ffffffe) + 1;
    }
  }

  /** The state that a seed leads to. */
  function Seeded(seed: uint32): (s: int32)
    ensures -0x7fffffff < s <= 0x7ffffffe
  {
    TruncRem(AsInt32(seed), 0x7ffffffe) + 1
  }

  /** The seeds that lead to the generator's fixed point 0 are exactly two. */
  lemma DeadSeeds(seed: uint32)
    ensures Seeded(seed) == 0 <==> seed == 0xFFFFFFFF || seed == 0x80000001
  {
  }

  /** The range that `myRand` calls for is reached from the seeds that are no negative 32-bit integers, and from one that is. */
  lemma SeededInRange(seed: uint32)
    ensures 1 <= Seeded(seed) <= 0x7ffffffe <==> seed < 0x8000_0000 || seed == 0x8000_0002
  {
    var next := AsInt32(seed);
    if seed >= 0x8000_0003 {
      assert 0 < -next < 0x7ffffffe;
      assert TruncRem(next, 0x7ffffffe) == next;
    }
  }

  lemma Congruent(a: int, b: int, k: int)
    requires a == b + MODULUS * k
    ensures a % MODULUS == b % MODULUS
  {
    Representative(a % MODULUS, b, k - a / MODULUS);
  }

  /** Multiplying by the inverse undoes a step: the generator permutes the residues. */
  lemma StepIsInvertible(state: int)
    ensures (INVERSE * Next(state)) % MODULUS == state % MODULUS
  {
    var p := MULTIPLIER * state;
    var q := p / MODULUS;
    assert Next(state) == p - MODULUS * q;
    assert INVERSE * MULTIPLIER == 1 + MODULUS * 11017;
    assert INVERSE * Next(state) == state + MODULUS * (11017 * state - INVERSE * q);
    Congruent(INVERSE * Next(state), state, 11017 * state - INVERSE * q);
  }

  /** A step leads to 0 only from a multiple of the modulus. */
  lemma ZeroIsIsolated(state: int)
    ensures Next(state) == 0 <==> state % MODULUS == 0
  {
    StepIsInvertible(state);
    if state % MODULUS == 0 {
      var k := state / MODULUS;
      assert MULTIPLIER * state == 0 + MODULUS * (MULTIPLIER * k);
      Congruent(MULTIPLIER * state, 0, MULTIPLIER * k);
    }
  }

  /** The state after `n` steps. */
  function Steps(state: int, n: nat): int {
    if n == 0 then state else Next(Steps(state, n - 1))
  }

  function Power(b: int, n: nat): int {
    if n == 0 then 1 else b * Power(b, n - 1)
  }

  /** In closed form: a power of 7^5 times the start, modulo 2^31 - 1. */
  lemma {:induction false} StepsClosedForm(state: int, n: nat)
    ensures Steps(state, n) % MODULUS == (Power(MULTIPLIER, n) * state) % MODULUS
  {
    if n > 0 {
      StepsClosedForm(state, n - 1);
      var a, b := Steps(state, n - 1), Power(MULTIPLIER, n - 1) * state;
      var k := a / MODULUS - b / MODULUS;
      assert a == b + MODULUS * k;
      assert MULTIPLIER * a == MULTIPLIER * b + MODULUS * (MULTIPLIER * k);
      Congruent(MULTIPLIER * a, MULTIPLIER * b, MULTIPLIER * k);
      assert MULTIPLIER * b == Power(MULTIPLIER, n) * state;
      Congruent(Steps(state, n), MULTIPLIER * a, -(MULTIPLIER * a / MODULUS));
    }
  }

  /** From a seed that is not dead, every number drawn is in [0, 0x7ffffffd]; from a dead one, every number drawn is -1. */
  lemma {:induction false} DrawRange(seed: uint32, n: nat)
    requires n > 0
    ensures if Seeded(seed) == 0 then Steps(Seeded(seed), n) == 0 else 1 <= Steps(Seeded(seed), n) <= 0x7ffffffe
  {
    ZeroIsIsolated(Steps(Seeded(seed), n - 1));
    if n > 1 {
      DrawRange(seed, n - 1);
    } else {
      SmallIsNotMultiple(Seeded(seed));
    }
  }

  lemma SmallIsNotMultiple(s: int)
    requires -MODULUS < s < MODULUS
    ensures s % MODULUS == 0 <==> s == 0
  {
    if s < 0 {
      Representative(s + MODULUS, s, 1);
    }
  }
}
