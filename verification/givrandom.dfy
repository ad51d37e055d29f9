/**
 * Givaro's `GivRandom`: the multiplicative congruential generator
 * seed := 950706376 * seed mod (2^31 - 1) of Fishman (1990), kept in a
 * `uint64_t` and computed through `int64_t`.
 *
 * The `const` call operator updates a `mutable` seed; here the state is
 * passed in and the updated state returned. The default constructor's
 * timer-seeded path is not modelled: a generator starts from a given
 * non-zero seed.
 */
module GivRandomGen {
  import opened Util

  const Multiplier: nat := 950706376
  const Modulo: nat := 2147483647
  const TwoTo63: int := 0x8000_0000_0000_0000

  /** The generator: its `_seed`, a `uint64_t`. */
  datatype GivRandom = GivRandom(seed: nat)

  predicate Valid(R: GivRandom)
  {
    R.seed < TwoTo64
  }

  /** `GivRandom(s)` for a non-zero s: the loop asking the timer for a seed does not run. */
  function FromSeed(s: nat): (R: GivRandom)
    requires 0 < s < TwoTo64
    ensures Valid(R) && R.seed == s
  {
    GivRandom(s)
  }

  /** `(int64_t)` of a `uint64_t`: values from 2^63 on become negative. */
  function ToInt64(u: nat): (v: int)
    requires u < TwoTo64
    ensures -TwoTo63 <= v < TwoTo63 && (v - u) % TwoTo64 == 0
  {
    if u < TwoTo63 then u else ModUnique(u - TwoTo64 - u, TwoTo64, -1, 0); u - TwoTo64
  }

  /** A product that overflows `int64_t` wraps to the two's-complement value. */
  function WrapInt64(v: int): (w: int)
    ensures -TwoTo63 <= w < TwoTo63
    ensures -TwoTo63 <= v < TwoTo63 ==> w == v
  {
    if -TwoTo63 <= v < TwoTo63 then v else (v + TwoTo63) % TwoTo64 - TwoTo63
  }

  /** `(uint64_t)` of an `int64_t`: negative values gain 2^64. */
  function ToUint64(v: int): (u: nat)
    requires -TwoTo63 <= v < TwoTo63
    ensures u < TwoTo64 && (u - v) % TwoTo64 == 0
  {
    if v >= 0 then v else ModUnique(TwoTo64, TwoTo64, 1, 0); v + TwoTo64
  }

  /** The new seed `(uint64_t)((int64_t)A * (int64_t)seed % (int64_t)M)`, with C's truncating `%`. */
  function Next(seed: nat): (r: nat)
    requires seed < TwoTo64
    ensures r < TwoTo64
  {
    ToUint64(CRem(WrapInt64(Multiplier * ToInt64(seed)), Modulo))
  }

  /** From a seed below 2^31 - 1 the products fit in 64 bits, so the step is the textbook one and stays below the modulus. */
  lemma NextInRange(seed: nat)
    requires seed < TwoTo64
    ensures seed < Modulo ==> Next(seed) == (Multiplier * seed) % Modulo && Next(seed) < Modulo
  {
    if seed < Modulo {
      assert Multiplier * seed < Multiplier * Modulo < TwoTo63;
    }
  }

  /**
   * From the seed 2^34 the `int64_t` product wraps to a negative value, C's
   * `%` keeps the sign, and the cast back to `uint64_t` returns a value far
   * above max_rand.
   */
  lemma LargeSeedExceedsModulo()
    ensures Next(0x4_0000_0000) == 18446744072725268032 && Next(0x4_0000_0000) >= Modulo
  {
    var v := Multiplier * 0x4_0000_0000;
    assert v == 16333011172074717184;
    assert WrapInt64(v) == -2113732901634834432 by {
      ModUnique(v + TwoTo63, TwoTo64, 1, v + TwoTo63 - TwoTo64);
    }
    assert CRem(-2113732901634834432, Modulo) == -984283584 by {
      ModUnique(2113732901634834432, Modulo, 984283584, 984283584);
    }
  }

  /** `max_rand()`: the modulus. */
  function MaxRand(R: GivRandom): (m: nat)
    ensures m == Modulo && m == 2147483647
  {
    Modulo
  }

  /** `seed()`. */
  function Seed(R: GivRandom): nat
  {
    R.seed
  }

  /** `operator()()`: the value returned and the generator after the call, whose seed is that value. */
  function Call(R: GivRandom): (r: (nat, GivRandom))
    requires Valid(R)
    ensures Valid(r.1) && Seed(r.1) == r.0
    ensures R.seed < Modulo ==> r.0 < MaxRand(R) && r.0 == (Multiplier * R.seed) % Modulo
  {
    NextInRange(R.seed);
    var s := Next(R.seed);
    (s, GivRandom(s))
  }

  /** `operator()(x)`: x receives the next value and the generator advances once, as one `Call`. */
  function CallInto<X>(R: GivRandom, x: X, cast: nat -> X): (r: (X, GivRandom))
    requires Valid(R)
    ensures r.0 == cast(Call(R).0) && r.1 == Call(R).1
    ensures Seed(r.1) == Next(R.seed)
  {
    var c := Call(R);
    (cast(c.0), c.1)
  }

  /** The copy constructor and `operator=`: the same seed. */
  function Copy(R: GivRandom): (C: GivRandom)
    ensures Seed(C) == Seed(R)
  {
    GivRandom(R.seed)
  }

  /** The seed after k calls. */
  function SeedAfter(seed: nat, k: nat): (s: nat)
    requires seed < TwoTo64
    ensures s < TwoTo64
  {
    if k == 0 then seed else Next(SeedAfter(seed, k - 1))
  }

  /** From a seed below the modulus, the k-th seed is A^k * seed mod (2^31 - 1). */
  lemma {:induction false} SeedAfterClosedForm(seed: nat, k: nat)
    requires seed < Modulo
    ensures SeedAfter(seed, k) == (Pow(Multiplier, k) * seed) % Modulo
    ensures SeedAfter(seed, k) < Modulo
  {
    if k == 0 {
      ModUnique(seed, Modulo, 0, seed);
    } else {
      SeedAfterClosedForm(seed, k - 1);
      var prev := SeedAfter(seed, k - 1);
      var P := Pow(Multiplier, k - 1) * seed;
      NextInRange(prev);
      ModMulRight(Multiplier, P, Modulo);
      assert Multiplier * P == Pow(Multiplier, k) * seed;
    }
  }

  /**
   * k successive calls: the values returned and the generator afterwards.
   * Every value is the seed after that many calls, below max_rand.
   */
  method Draw(R: GivRandom, k: nat) returns (xs: seq<nat>, S: GivRandom)
    requires Valid(R) && R.seed < Modulo
    ensures |xs| == k && Valid(S)
    ensures forall i :: 0 <= i < k ==> xs[i] == (Pow(Multiplier, i + 1) * R.seed) % Modulo && xs[i] < Modulo
    ensures S.seed == if k == 0 then R.seed else xs[k - 1]
  {
    xs := [];
    S := R;
    while |xs| < k
      invariant |xs| <= k && Valid(S) && S.seed == SeedAfter(R.seed, |xs|)
      invariant forall i :: 0 <= i < |xs| ==> xs[i] == SeedAfter(R.seed, i + 1)
    {
      var c := Call(S);
      xs := xs + [c.0];
      S := c.1;
    }
    forall i | 0 <= i < k
      ensures xs[i] == (Pow(Multiplier, i + 1) * R.seed) % Modulo && xs[i] < Modulo
    {
      SeedAfterClosedForm(R.seed, i + 1);
    }
    SeedAfterClosedForm(R.seed, k);
  }

  /** A copy draws the same values as the original. */
  method DrawCopy(R: GivRandom, k: nat) returns (xs: seq<nat>, ys: seq<nat>)
    requires Valid(R) && R.seed < Modulo
    ensures xs == ys && |xs| == k
  {
    var C := Copy(R);
    var S, T;
    xs, S := Draw(R, k);
    ys, T := Draw(C, k);
  }
}
