/** The Delphi-compatible linear congruential generator (`RandIntGenDelphi`):
    a 32-bit seed advanced by `seed * multiplier + increment`, and outputs
    scaled into [0, x) by taking the high 32 bits of `seed * x`. */
module Delphi {

  const Modulus: int := 0x1_0000_0000
  const DefaultMultiplier: int := 0x8088405
  const DefaultIncrement: int := 1

  /** The seed after one step; Python's `& 0xFFFFFFFF` is reduction modulo 2^32,
      which agrees with Dafny's `%` for every integer, negative ones included. */
  function NextSeed(seed: int, multiplier: int, increment: int): (s: int)
    ensures 0 <= s < Modulus
    ensures (multiplier * seed + increment - s) % Modulus == 0
  {
    (multiplier * seed + increment) % Modulus
  }

  /** For a seed below 2^32, `(seed * x) >> 32` lies in [0, x). */
  lemma ScaledBelow(seed: int, x: int)
    ensures 0 <= seed < Modulus && 0 < x ==> 0 <= (seed * x) / Modulus < x
  {
    if 0 <= seed < Modulus && 0 < x {
      assert 0 <= seed * x;
      assert seed * x < Modulus * x by {
        assert (Modulus - seed) * x > 0;
      }
      assert (seed * x) / Modulus * Modulus <= seed * x;
    }
  }

  /** `((seed * x) >> 32) & 0xFF`: Python's `>>` floors and `&` reduces
      modulo 256, as Dafny's `/` and `%` by positive constants do. The result
      is a byte, and for a 32-bit seed and 0 < x <= 256 it is below x. */
  function Scaled(seed: int, x: int): (r: int)
    ensures 0 <= r < 256
    ensures 0 <= seed < Modulus && 0 < x <= 256 ==> r < x
  {
    ScaledBelow(seed, x);
    ((seed * x) / Modulus) % 256
  }

  /** The seed after `n` steps with the generator's default constants. */
  function SeedAfter(seed: int, n: nat): (s: int)
    ensures n > 0 ==> 0 <= s < Modulus
    decreases n
  {
    if n == 0 then seed else NextSeed(SeedAfter(seed, n - 1), DefaultMultiplier, DefaultIncrement)
  }

  class RandIntGenDelphi {
    var seed: int
    const multiplier: int
    const increment: int

    constructor (seed: int := 0, multiplier: int := DefaultMultiplier, increment: int := DefaultIncrement)
      ensures this.seed == seed
      ensures this.multiplier == multiplier && this.increment == increment
    {
      this.seed := seed;
      this.multiplier := multiplier;
      this.increment := increment;
    }

    /** `get_next`: advance the seed once, then scale it by x. */
    method GetNext(x: int := 255) returns (r: int)
      modifies this
      ensures seed == NextSeed(old(seed), multiplier, increment)
      ensures r == Scaled(seed, x)
      ensures 0 <= r < 256
      ensures 0 < x <= 256 ==> r < x
    {
      seed := multiplier * seed + increment;
      seed := seed % Modulus;
      r := (seed * x) / Modulus;
      r := r % 256;
    }
  }
}
