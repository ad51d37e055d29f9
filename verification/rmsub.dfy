/**
 * Modular subtraction on RecInt's `rmint<K, MG>`: a residue modulo the
 * static modulus p held in an unsigned word `ruint<K>` of 2^K bits.
 *
 * The word operations `sub` and `add` on `ruint` wrap modulo the word size
 * W = 2^(2^K); the model writes the wrap out and proves that on reduced
 * operands it never happens. Values are the residues the `rmint` stands
 * for; with Montgomery form active (MG) the stored word is the residue
 * times R mod p, and subtraction, being linear, acts the same on both.
 */
module RecIntSub {
  import opened Util
  /** `rmint<K, MG>`: the word `Value`. */
  datatype RMInt = RMInt(value: nat)

  /** The static modulus p fits in the word of size W, which is a power of two. */
  predicate Word(p: nat, W: nat)
  {
    1 <= p < W
  }

  /** A reduced residue: `Value < p`. */
  predicate Reduced(p: nat, a: RMInt)
  {
    a.value < p
  }

  /** A difference that lies within one modulus of [0, m) reduces by adding m at most once. */
  lemma ModNear(v: int, m: int)
    requires m > 0 && -m <= v < m
    ensures v % m == if v < 0 then v + m else v
  {
    if v < 0 {
      ModUnique(v, m, -1, v + m);
    } else {
      ModUnique(v, m, 0, v);
    }
  }

  /** `ruint` subtraction `sub(r, x, y)` on words below W: borrows W when y > x. */
  function WordSub(W: nat, x: nat, y: nat): (r: nat)
    requires x < W && y < W
    ensures r < W && r == (x - y) % W
  {
    ModNear(x - y, W);
    if x >= y then x - y else x - y + W
  }

  /** `ruint` addition `add(r, x)` on words below W: drops the carry W. */
  function WordAdd(W: nat, x: nat, y: nat): (r: nat)
    requires x < W && y < W
    ensures r < W && r == (x + y) % W
  {
    ModNear(x + y - W, W);
    ModUnique(x + y, W, if x + y < W then 0 else 1, if x + y < W then x + y else x + y - W);
    if x + y < W then x + y else x + y - W
  }

  /**
   * `sub(a, b, c)`: a = b - c mod p. When b < c it forms p - c and adds b,
   * otherwise it subtracts directly.
   */
  function Sub(p: nat, W: nat, b: RMInt, c: RMInt): (a: RMInt)
    requires Word(p, W) && Reduced(p, b) && Reduced(p, c)
    ensures Reduced(p, a)
    ensures a.value == (b.value - c.value) % p
  {
    ModNear(b.value - c.value, p);
    if b.value < c.value then RMInt(WordAdd(W, WordSub(W, p, c.value), b.value))
    else RMInt(WordSub(W, b.value, c.value))
  }

  /** `sub(a, b)`, also `operator-=`: a -= b mod p, adding p - b when a < b. */
  function SubInPlace(p: nat, W: nat, a: RMInt, b: RMInt): (r: RMInt)
    requires Word(p, W) && Reduced(p, a) && Reduced(p, b)
    ensures Reduced(p, r)
    ensures r.value == (a.value - b.value) % p
  {
    ModNear(a.value - b.value, p);
    if a.value < b.value then RMInt(WordAdd(W, a.value, WordSub(W, p, b.value)))
    else RMInt(WordSub(W, a.value, b.value))
  }

  /** The two forms of subtraction agree. */
  lemma SubInPlaceIsSub(p: nat, W: nat, a: RMInt, b: RMInt)
    requires Word(p, W) && Reduced(p, a) && Reduced(p, b)
    ensures SubInPlace(p, W, a, b) == Sub(p, W, a, b)
  {
  }

  /** Adding c back to b - c gives b: subtraction inverts modular addition. */
  lemma SubAddRoundTrip(p: nat, W: nat, b: RMInt, c: RMInt)
    requires Word(p, W) && Reduced(p, b) && Reduced(p, c)
    ensures (Sub(p, W, b, c).value + c.value) % p == b.value
  {
    var a := Sub(p, W, b, c);
    ModNear(b.value - c.value, p);
    if b.value < c.value {
      ModUnique(a.value + c.value, p, 1, b.value);
    } else {
      ModUnique(a.value + c.value, p, 0, b.value);
    }
  }

  /**
   * `operator-(b, c)`: subtraction into a fresh `rmint`. The operands are
   * passed by const reference and returned untouched; the result is the
   * pair of the difference and both operands as they were.
   */
  function Minus(p: nat, W: nat, b: RMInt, c: RMInt): (r: (RMInt, RMInt, RMInt))
    requires Word(p, W) && Reduced(p, b) && Reduced(p, c)
    ensures r.1 == b && r.2 == c
    ensures Reduced(p, r.0) && (r.0.value + c.value) % p == b.value
  {
    SubAddRoundTrip(p, W, b, c);
    (Sub(p, W, b, c), b, c)
  }

  /**
   * The conversion `rmint(T)` of an arithmetic constant, taken here as its
   * residue modulo p for a non-negative constant; the conversion code is
   * not part of this model.
   */
  function Convert(p: nat, c: nat): (a: RMInt)
    requires p >= 1
    ensures Reduced(p, a) && (c - a.value) % p == 0
  {
    ModUnique(c - c % p, p, c / p, 0);
    RMInt(c % p)
  }

  /** Subtracting c or its residue leaves the same residue. */
  lemma ModResidue(x: int, c: int, p: int)
    requires p > 0
    ensures (x - c % p) % p == (x - c) % p
  {
    var q, r := c / p, c % p;
    assert c == q * p + r;
    assert x - c == (x - r) + (-q) * p;
    ModAddMultiple(x - r, -q, p);
  }

  /** `sub(a, b, c)` with an arithmetic c: convert c, then subtract. */
  function SubConst(p: nat, W: nat, b: RMInt, c: nat): (a: RMInt)
    requires Word(p, W) && Reduced(p, b)
    ensures Reduced(p, a) && a.value == (b.value - c) % p
  {
    ModResidue(b.value, c, p);
    Sub(p, W, b, Convert(p, c))
  }

  /** Prefix `--a`: `sub(a, 1)`, so a becomes a - 1 mod p; the result is the updated a. */
  function PreDecrement(p: nat, W: nat, a: RMInt): (r: RMInt)
    requires Word(p, W) && Reduced(p, a)
    ensures Reduced(p, r)
    ensures r.value == if a.value == 0 then p - 1 else a.value - 1
  {
    OneResidue(p);
    ModNear(a.value - (if p == 1 then 0 else 1), p);
    SubInPlace(p, W, a, Convert(p, 1))
  }

  /** Postfix `a--`: the copy taken before `sub(a, 1)` is returned, and a is decremented. */
  function PostDecrement(p: nat, W: nat, a: RMInt): (r: (RMInt, RMInt))
    requires Word(p, W) && Reduced(p, a)
    ensures r.0 == a
    ensures r.1 == PreDecrement(p, W, a)
  {
    var temp := a;
    (temp, SubInPlace(p, W, a, Convert(p, 1)))
  }

  /** Decrementing undoes one step of counting up: --(a + 1) == a. */
  lemma PreDecrementInverts(p: nat, W: nat, a: RMInt)
    requires Word(p, W) && Reduced(p, a)
    ensures PreDecrement(p, W, RMInt((a.value + 1) % p)) == a
  {
    if a.value + 1 < p {
      ModUnique(a.value + 1, p, 0, a.value + 1);
    } else {
      ModUnique(a.value + 1, p, 1, 0);
    }
  }

  /** The residue of the constant 1. */
  lemma OneResidue(p: int)
    requires p >= 1
    ensures 1 % p == if p == 1 then 0 else 1
  {
    if p == 1 {
      ModUnique(1, p, 1, 0);
    } else {
      ModUnique(1, p, 0, 1);
    }
  }
}
