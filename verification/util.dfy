/**
 * Shared vocabulary: the error-carrying result type used where the C++ code
 * throws `PreconditionFailed`, machine-width constants, integer powers and
 * the reference definition of the greatest common divisor that the ring
 * arithmetic and the elimination are proved against.
 */
module Util {

  /** Either a value or the message of the exception the source throws. */
  datatype Result<T> = Ok(value: T) | Failure(error: string)

  const MaxInt32: int := 2147483647
  const MinInt32: int := -2147483648
  const TwoTo32: int := 0x1_0000_0000
  const TwoTo64: int := 0x1_0000_0000_0000_0000

  predicate IsInt32(x: int) { MinInt32 <= x <= MaxInt32 }
  predicate IsUint64(x: int) { 0 <= x < TwoTo64 }

  function Abs(x: int): nat { if x < 0 then -x else x }
  function Max(a: int, b: int): int { if a < b then b else a }
  function Min(a: int, b: int): int { if a < b then a else b }

  /** b^e over the integers. */
  function Pow(b: int, e: nat): int
  {
    if e == 0 then 1 else b * Pow(b, e - 1)
  }

  /** d | n, with 0 | n only for n == 0. */
  predicate Divides(d: int, n: int)
  {
    if d == 0 then n == 0 else n % d == 0
  }

  /** C/C++ `%` on signed operands: the remainder takes the sign of the dividend. */
  function CRem(a: int, m: int): int
    requires m > 0
  {
    if a >= 0 then a % m else -((-a) % m)
  }

  /** C/C++ `/` on signed operands: the quotient is truncated toward zero. */
  function CDiv(a: int, m: int): int
    requires m > 0
  {
    if a >= 0 then a / m else -((-a) / m)
  }

  lemma CDivRem(a: int, m: int)
    requires m > 0
    ensures CDiv(a, m) * m + CRem(a, m) == a
    ensures -m < CRem(a, m) < m
    ensures CRem(a, m) == 0 <==> a % m == 0
  {
    if a < 0 {
      var b := -a;
      var q := b / m;
      assert b == q * m + b % m;
      assert CDiv(a, m) * m == -(q * m);
      if b % m == 0 {
        ModUnique(a, m, -q, 0);
      } else {
        assert a == (-q - 1) * m + (m - b % m);
        ModUnique(a, m, -q - 1, m - b % m);
      }
    }
  }

  /** Quotient and remainder are determined by the division identity. */
  lemma ModUnique(a: int, m: int, q: int, r: int)
    requires m > 0 && 0 <= r < m && a == q * m + r
    ensures a / m == q && a % m == r
  {
    var k := q - a / m;
    assert a == (a / m) * m + a % m;
    assert k * m == a % m - r;
    if k > 0 {
      MulMonotone(m, 1, k);
    } else if k < 0 {
      MulMonotone(m, k, -1);
    }
  }

  /** Euclid's algorithm on naturals: the reference greatest common divisor. */
  function Gcd(a: nat, b: nat): nat
    decreases b
  {
    if b == 0 then a else Gcd(b, a % b)
  }

  lemma {:induction false} GcdDivides(a: nat, b: nat)
    ensures Divides(Gcd(a, b), a) && Divides(Gcd(a, b), b)
    decreases b
  {
    if b != 0 {
      GcdDivides(b, a % b);
      var g := Gcd(b, a % b);
      if g != 0 {
        var q := a / b;
        assert a == q * b + a % b;
        DividesLinear(g, b, a % b, q, 1);
      }
    }
  }

  lemma {:induction false} GcdGreatest(a: nat, b: nat, d: int)
    requires Divides(d, a) && Divides(d, b)
    ensures Divides(d, Gcd(a, b))
    decreases b
  {
    if b != 0 {
      if d != 0 {
        var q := a / b;
        assert a % b == a - q * b;
        DividesLinear(d, a, b, 1, -q);
        assert 1 * a + (-q) * b == a % b;
        GcdGreatest(b, a % b, d);
      }
    }
  }

  lemma {:induction false} GcdZero(a: nat, b: nat)
    ensures Gcd(a, b) == 0 <==> a == 0 && b == 0
    decreases b
  {
    if b != 0 {
      GcdZero(b, a % b);
    }
  }

  lemma GcdSym(a: nat, b: nat)
    ensures Gcd(a, b) == Gcd(b, a)
  {
    GcdDivides(a, b);
    GcdDivides(b, a);
    GcdGreatest(a, b, Gcd(b, a));
    GcdGreatest(b, a, Gcd(a, b));
    DividesAntisym(Gcd(a, b), Gcd(b, a));
  }

  /** Euclid's step: gcd(a, b) == gcd(b, a mod b) for any modulus step. */
  lemma GcdStep(a: nat, b: nat)
    requires b > 0
    ensures Gcd(a, b) == Gcd(b, a % b)
  {
  }

  /** Two naturals dividing one another are equal. */
  lemma DividesAntisym(x: nat, y: nat)
    requires Divides(x, y) && Divides(y, x)
    ensures x == y
  {
    if x != 0 && y != 0 {
      DividesLe(x, y);
      DividesLe(y, x);
    }
  }

  lemma DividesLe(d: nat, n: nat)
    requires d > 0 && n > 0 && Divides(d, n)
    ensures d <= n
  {
    var q := n / d;
    assert n == q * d;
    assert q >= 1;
    MulMonotone(d, 1, q);
  }

  lemma MulMonotone(d: nat, x: int, y: int)
    requires x <= y
    ensures d * x <= d * y
  {
  }

  /** d | x and d | y imply d | (i*x + j*y). */
  lemma DividesLinear(d: int, x: int, y: int, i: int, j: int)
    requires d != 0 && Divides(d, x) && Divides(d, y)
    ensures Divides(d, i * x + j * y)
  {
    var dx := x / d;
    var dy := y / d;
    assert x == dx * d;
    assert y == dy * d;
    assert i * x + j * y == (i * dx + j * dy) * d;
    ModMultiple(i * dx + j * dy, d);
  }

  lemma ModMultiple(q: int, d: int)
    requires d != 0
    ensures (q * d) % d == 0
  {
    if d > 0 {
      ModUnique(q * d, d, q, 0);
    } else {
      assert q * d == (-q) * (-d);
      ModUnique(q * d, -d, -q, 0);
      assert (q * d) % d == (q * d) % (-d);
    }
  }

  /** Adding a multiple of m does not change the residue. */
  lemma ModAddMultiple(a: int, q: int, m: int)
    requires m > 0
    ensures (a + q * m) % m == a % m
  {
    assert a == (a / m) * m + a % m;
    assert a + q * m == (a / m + q) * m + a % m;
    ModUnique(a + q * m, m, a / m + q, a % m);
  }

  /** Congruence modulo m, stated without division. */
  predicate Congruent(a: int, b: int, m: int)
    requires m > 0
  {
    a % m == b % m
  }

  lemma CongruentByMultiple(a: int, b: int, q: int, m: int)
    requires m > 0 && a == b + q * m
    ensures a % m == b % m
  {
    ModAddMultiple(b, q, m);
  }

  lemma ModOfMod(a: int, m: int)
    requires m > 0
    ensures (a % m) % m == a % m
  {
  }

  /** Residues of sums and products depend only on the residues of the operands. */
  lemma ModAdd(a: int, b: int, m: int)
    requires m > 0
    ensures (a + b) % m == (a % m + b % m) % m
  {
    CongruentByMultiple(a + b, a % m + b % m, a / m + b / m, m);
  }

  lemma ModMul(a: int, b: int, m: int)
    requires m > 0
    ensures (a * b) % m == ((a % m) * (b % m)) % m
  {
    var qa, ra := a / m, a % m;
    var qb, rb := b / m, b % m;
    assert a == qa * m + ra;
    assert b == qb * m + rb;
    assert a * b == ra * rb + (qa * qb * m + qa * rb + ra * qb) * m;
    CongruentByMultiple(a * b, ra * rb, qa * qb * m + qa * rb + ra * qb, m);
  }

  lemma ModMulRight(a: int, b: int, m: int)
    requires m > 0
    ensures (a * b) % m == (a * (b % m)) % m
  {
    ModMul(a, b, m);
    ModMul(a, b % m, m);
    ModOfMod(b, m);
  }

  lemma PowPositive(b: int, e: nat)
    requires b > 0
    ensures Pow(b, e) > 0
  {
  }

  lemma PowAdd(b: int, e: nat)
    requires b > 0
    ensures Pow(b, e + 1) == b * Pow(b, e)
  {
  }

  /** The first index of x in s, or |s| when x does not occur. */
  function IndexOf<T(==)>(s: seq<T>, x: T): (k: nat)
    ensures k <= |s| && (k < |s| ==> s[k] == x)
  {
    if |s| == 0 then 0 else if s[0] == x then 0 else 1 + IndexOf(s[1..], x)
  }

  /** No x comes before the index IndexOf finds. */
  lemma {:induction false} IndexOfBefore<T>(s: seq<T>, x: T, t: nat)
    requires t < IndexOf(s, x)
    ensures s[t] != x
  {
    if t > 0 {
      IndexOfBefore(s[1..], x, t - 1);
    }
  }

  /** An occurrence of x with none before it is the one IndexOf finds. */
  lemma {:induction false} IndexOfFirst<T>(s: seq<T>, x: T, p: nat)
    requires p < |s| && s[p] == x && forall k :: 0 <= k < p ==> s[k] != x
    ensures IndexOf(s, x) == p
  {
    if p > 0 {
      IndexOfFirst(s[1..], x, p - 1);
    }
  }
}
