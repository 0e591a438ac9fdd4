/** The kernel's pseudo-random generator (kernel/src/lib/rand.cpp): a 64-bit
    linear congruential state, seeded to 1, whose bits 16 and up are
    narrowed to `int` and reduced by C's `%` against RAND_MAX. lib/rand.hpp
    is not part of this model, so RAND_MAX is a parameter. */
module KernelRand {
  import opened CInt

  const MULTIPLIER: int := 1103515245
  const INCREMENT: int := 12345

  /** The state update `next = next * 1103515245 + 12345` on a uint64. */
  function Step(next: int): (n: int)
    ensures InU64(n)
  {
    U64(next * MULTIPLIER + INCREMENT)
  }

  /** What `rand` returns from the updated state: `(int)(next / 65536)`,
      which keeps the low 32 of the 48 remaining bits as a signed value,
      then C's truncating `%`. */
  function Output(next: int, randMax: int): int
    requires 0 < randMax
  {
    TMod(I32(next / 65536), randMax)
  }

  /** The results stay strictly within RAND_MAX of zero, on either side:
      a result is negative whenever bit 47 of the state is set. */
  lemma OutputBounds(next: int, randMax: int)
    requires InU64(next) && 0 < randMax
    ensures -randMax < Output(next, randMax) < randMax
    ensures I32(next / 65536) >= 0 ==> 0 <= Output(next, randMax)
    ensures I32(next / 65536) < 0 ==> Output(next, randMax) <= 0
  {
    TModBounds(I32(next / 65536), randMax);
  }

  /** With bit 47 of the state set and the low 32 bits of `next / 65536`
      not a multiple of RAND_MAX, `rand` returns a negative number. */
  lemma NegativeOutput(randMax: int)
    requires 1 < randMax
    ensures Output(0xFFFF_FFFF_0000, randMax) == -1
  {
    assert 0xFFFF_FFFF_0000 / 65536 == 0xFFFF_FFFF;
    assert I32(0xFFFF_FFFF) == -1;
    assert TDiv(-1, randMax) == 0;
  }

  /** The generator's first result without a seed: the state 1 steps to
      1103527590, whose bits 16 and up are 16838. */
  lemma FirstRoll(randMax: int)
    requires 16838 < randMax
    ensures Output(Step(1), randMax) == 16838
  {
    assert Step(1) == 1103527590;
    assert 1103527590 / 65536 == 16838;
  }

  /** The static `next`. */
  class Rand {
    var next: int
    const randMax: int

    /** The static initialiser: `next = 1`. */
    constructor (randMax: int)
      requires 0 < randMax
      ensures next == 1 && this.randMax == randMax
    {
      next := 1;
      this.randMax := randMax;
    }

    /** `rand`. */
    method Next() returns (r: int)
      requires 0 < randMax
      modifies this
      ensures next == Step(old(next))
      ensures r == Output(next, randMax)
    {
      next := U64(next * MULTIPLIER + INCREMENT);
      r := TMod(I32(next / 65536), randMax);
    }

    /** `srand`: the unsigned seed becomes the whole state. */
    method Seed(seed: int)
      requires InU32(seed)
      modifies this
      ensures next == seed
    {
      next := seed;
    }
  }
}
