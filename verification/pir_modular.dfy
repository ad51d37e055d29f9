/**
 * The principal-ideal ring Z/pZ on 32-bit integers (`PIRModular<int32_t>`):
 * gcd and extended gcd on signed machine integers, the ring-level xgcd,
 * divisibility, exact division and normalisation, and the 64-bit
 * accumulator that stays correct modulo p across unsigned wrap-around.
 *
 * Integers are unbounded here; the int32 range is kept as a precondition
 * and the one overflow the source checks (an argument equal to INT32_MIN,
 * whose negation does not fit) is the `Failure` result.
 */
module PirModular {
  import opened Util

  // ---------------------------------------------------------------------
  // Static gcd helpers (GCD, XGCD, HXGCD)
  // ---------------------------------------------------------------------

  const OverflowMessage: string := "XGCD: integer overflow"
  const NotDividableMessage: string := "Div: not dividable"

  /** The gcd routine: Euclid's loop on the absolute values, throwing when an argument is INT32_MIN. */
  function GCD(a: int, b: int): (r: Result<int>)
    requires IsInt32(a) && IsInt32(b)
    ensures r.Failure? <==> (a == MinInt32 || b == MinInt32)
    ensures r.Ok? ==> r.value >= 0 && Divides(r.value, a) && Divides(r.value, b)
    ensures r.Ok? ==> forall d :: d != 0 && Divides(d, a) && Divides(d, b) ==> Divides(d, r.value)
  {
    if a < -MaxInt32 || b < -MaxInt32 then Failure(OverflowMessage)
    else
      var g := GcdLoop(Abs(a), Abs(b));
      GcdSigned(a, b);
      Ok(g)
  }

  /** `while (v != 0) { r = u % v; u = v; v = r; }` on non-negative operands. */
  function GcdLoop(u: nat, v: nat): (g: nat)
    ensures g == Gcd(u, v)
    ensures Divides(g, u) && Divides(g, v)
    ensures forall d :: Divides(d, u) && Divides(d, v) ==> Divides(d, g)
    ensures g == 0 <==> u == 0 && v == 0
    decreases v
  {
    GcdIsGreatest(u, v);
    if v == 0 then u else GcdLoop(v, u % v)
  }

  /** Gcd(u, v) is a common divisor that every common divisor divides, and zero only for (0, 0). */
  lemma GcdIsGreatest(u: nat, v: nat)
    ensures Divides(Gcd(u, v), u) && Divides(Gcd(u, v), v)
    ensures forall d :: Divides(d, u) && Divides(d, v) ==> Divides(d, Gcd(u, v))
    ensures Gcd(u, v) == 0 <==> u == 0 && v == 0
  {
    GcdDivides(u, v);
    GcdZero(u, v);
    forall d | Divides(d, u) && Divides(d, v)
      ensures Divides(d, Gcd(u, v))
    {
      GcdGreatest(u, v, d);
    }
  }

  /** The gcd of the absolute values is a greatest common divisor of the signed values. */
  lemma GcdSigned(a: int, b: int)
    ensures Divides(Gcd(Abs(a), Abs(b)), a) && Divides(Gcd(Abs(a), Abs(b)), b)
    ensures forall d :: d != 0 && Divides(d, a) && Divides(d, b) ==> Divides(d, Gcd(Abs(a), Abs(b)))
  {
    var g := Gcd(Abs(a), Abs(b));
    GcdDivides(Abs(a), Abs(b));
    if g != 0 {
      DividesAbs(g, a);
      DividesAbs(g, b);
    } else {
      GcdZero(Abs(a), Abs(b));
    }
    forall d | d != 0 && Divides(d, a) && Divides(d, b)
      ensures Divides(d, g)
    {
      DividesAbs(d, a);
      DividesAbs(d, b);
      GcdGreatest(Abs(a), Abs(b), d);
    }
  }

  /** Undoing the sign of x on its cofactor: (+-c) * x == c * |x|. */
  lemma SignedCofactor(c: int, x: int)
    ensures (if x < 0 then -c else c) * x == c * Abs(x)
  {
  }

  lemma DividesAbs(d: int, x: int)
    requires d != 0
    ensures Divides(d, x) <==> Divides(d, Abs(x))
  {
    if x < 0 {
      if Divides(d, x) {
        DividesLinear(d, x, x, -1, 0);
      }
      if Divides(d, -x) {
        DividesLinear(d, -x, -x, -1, 0);
      }
    }
  }

  datatype Bezout = Bezout(d: int, s: int, t: int)

  /**
   * The invariant of the extended-Euclid loop on |a|, |b|: (u1, v1) are the
   * cofactors of the remainder u and (u2, v2) those of v; the cofactors of
   * each pair alternate in sign and their magnitudes are tied to the
   * remainders, which bounds the final cofactors by |b| and |a|.
   */
  ghost predicate XgcdInv(a: nat, b: nat, u: nat, v: nat, u1: int, v1: int, u2: int, v2: int)
  {
    && u1 * a + v1 * b == u
    && u2 * a + v2 * b == v
    && Gcd(u, v) == Gcd(a, b)
    && u1 * u2 <= 0
    && v1 * v2 <= 0
    && Abs(u2) * u + Abs(u1) * v == b
    && Abs(v2) * u + Abs(v1) * v == a
    && (Abs(u1) <= Abs(u2) || (Abs(u1) == 1 && u2 == 0))
    && (Abs(v1) <= Abs(v2) || (Abs(v1) == 1 && v2 == 0))
    && (v < u || (u == a && v == b && u1 == 1 && v1 == 0 && u2 == 0 && v2 == 1))
  }

  /** One pass of the XGCD loop body, with the new pair (u2, v2) := (u1 - q*u2, v1 - q*v2). */
  function {:induction false} XgcdLoop(a: nat, b: nat, u: nat, v: nat, u1: int, v1: int, u2: int, v2: int): (r: Bezout)
    requires XgcdInv(a, b, u, v, u1, v1, u2, v2)
    ensures r.d == Gcd(a, b)
    ensures r.s * a + r.t * b == r.d
    ensures Abs(r.s) <= Max(b, 1) && Abs(r.t) <= Max(a, 1)
    decreases v
  {
    if v == 0 then
      XgcdExit(a, b, u, u1, v1, u2, v2);
      Bezout(u, u1, v1)
    else
      var q := u / v;
      var r := u % v;
      XgcdStep(a, b, u, v, u1, v1, u2, v2, q, r);
      XgcdLoop(a, b, v, r, u2, v2, u1 - q * u2, v1 - q * v2)
  }

  lemma XgcdExit(a: nat, b: nat, u: nat, u1: int, v1: int, u2: int, v2: int)
    requires XgcdInv(a, b, u, 0, u1, v1, u2, v2)
    ensures Abs(u1) <= Max(b, 1) && Abs(v1) <= Max(a, 1)
  {
    assert Gcd(u, 0) == u;
    if u == 0 {
      GcdZero(a, b);
    } else {
      MulMonotone(Abs(u2), 1, u);
      MulMonotone(Abs(v2), 1, u);
    }
  }

  lemma XgcdStep(a: nat, b: nat, u: nat, v: nat, u1: int, v1: int, u2: int, v2: int, q: int, r: int)
    requires XgcdInv(a, b, u, v, u1, v1, u2, v2)
    requires v > 0 && q == u / v && r == u % v
    ensures r >= 0
    ensures XgcdInv(a, b, v, r, u2, v2, u1 - q * u2, v1 - q * v2)
  {
    DivFacts(u, v);
    BezoutStep(u1, v1, u2, v2, q, a, b, u, v);
    GcdStep(u, v);
    CofactorStep(u1, u2, q, u, v, r, b);
    CofactorStep(v1, v2, q, u, v, r, a);
  }

  /** Quotient and remainder of naturals, and a quotient of at least one when v <= u. */
  lemma DivFacts(u: nat, v: nat)
    requires v > 0
    ensures u == (u / v) * v + u % v && 0 <= u % v < v && u / v >= 0
    ensures v <= u ==> u / v >= 1
  {
  }

  /** The cofactor pair of the new remainder u - q*v. */
  lemma BezoutStep(u1: int, v1: int, u2: int, v2: int, q: int, a: int, b: int, u: int, v: int)
    requires u1 * a + v1 * b == u && u2 * a + v2 * b == v
    ensures (u1 - q * u2) * a + (v1 - q * v2) * b == u - q * v
  {
    assert (u1 - q * u2) * a + (v1 - q * v2) * b == (u1 * a + v1 * b) - q * (u2 * a + v2 * b);
  }

  /** The magnitude bookkeeping of one cofactor pair across one Euclid step. */
  lemma CofactorStep(c1: int, c2: int, q: int, u: nat, v: nat, r: int, n: nat)
    requires c1 * c2 <= 0 && q >= 0 && u == q * v + r
    requires Abs(c2) * u + Abs(c1) * v == n
    requires Abs(c1) <= Abs(c2) || (Abs(c1) == 1 && c2 == 0)
    requires q >= 1 || (Abs(c1) == 1 && c2 == 0) || (c1 == 0 && Abs(c2) == 1)
    ensures c2 * (c1 - q * c2) <= 0
    ensures Abs(c1 - q * c2) * v + Abs(c2) * r == n
    ensures Abs(c2) <= Abs(c1 - q * c2) || (Abs(c2) == 1 && c1 - q * c2 == 0)
  {
    SignStep(c1, c2, q);
    MagnitudeStep(Abs(c1), Abs(c2), q, u, v, r);
    if q >= 1 {
      MulMonotone(Abs(c2), 1, q);
    }
  }

  lemma SignStep(c1: int, c2: int, q: int)
    requires c1 * c2 <= 0 && q >= 0
    ensures c2 * (c1 - q * c2) <= 0
    ensures Abs(c1 - q * c2) == Abs(c1) + q * Abs(c2)
  {
    assert c2 * (c1 - q * c2) == c1 * c2 - q * (c2 * c2);
    MulNonNeg(c2, c2);
    MulNonNeg(q, c2 * c2);
    if c2 > 0 {
      if c1 > 0 {
        MulPos(c1, c2);
      }
      MulNonNeg(q, c2);
    } else if c2 < 0 {
      if c1 < 0 {
        MulPos(-c1, -c2);
      }
      MulNonNeg(q, -c2);
    }
  }

  lemma MagnitudeStep(A1: nat, A2: nat, q: int, u: int, v: int, r: int)
    requires u == q * v + r
    ensures (A1 + q * A2) * v + A2 * r == A2 * u + A1 * v
  {
    assert A2 * u == A2 * (q * v) + A2 * r;
    assert (A1 + q * A2) * v == A1 * v + (q * A2) * v;
    assert (q * A2) * v == A2 * (q * v);
  }

  lemma MulNonNeg(x: int, y: int)
    requires (x >= 0 && y >= 0) || (x <= 0 && y <= 0)
    ensures x * y >= 0
  {
  }

  lemma MulPos(x: int, y: int)
    requires x > 0 && y > 0
    ensures x * y > 0
  {
  }

  /** The signed extended gcd: d = gcd(|a|,|b|) = s*a + t*b, with the sign fix-ups for negative inputs. */
  function XGCD(a: int, b: int): (r: Result<Bezout>)
    requires IsInt32(a) && IsInt32(b)
    ensures r.Failure? <==> (a == MinInt32 || b == MinInt32)
    ensures r.Ok? ==> r.value.d == Gcd(Abs(a), Abs(b))
    ensures r.Ok? ==> r.value.s * a + r.value.t * b == r.value.d
    ensures r.Ok? ==> Abs(r.value.s) <= Max(Abs(b), 1) && Abs(r.value.t) <= Max(Abs(a), 1)
  {
    if a < -MaxInt32 || b < -MaxInt32 then Failure(OverflowMessage)
    else
      var A, B := Abs(a), Abs(b);
      var w := XgcdLoop(A, B, A, B, 1, 0, 0, 1);
      var s := if a < 0 then -w.s else w.s;
      var t := if b < 0 then -w.t else w.t;
      SignedCofactor(w.s, a);
      SignedCofactor(w.t, b);
      Ok(Bezout(w.d, s, t))
  }

  /** The XGCD invariant restricted to the cofactors of a (HXGCD keeps no t). */
  ghost predicate HxgcdInv(a: nat, b: nat, u: nat, v: nat, u1: int, u2: int)
  {
    && Divides(b, u1 * a - u)
    && Divides(b, u2 * a - v)
    && Gcd(u, v) == Gcd(a, b)
    && u1 * u2 <= 0
    && Abs(u2) * u + Abs(u1) * v == b
    && (Abs(u1) <= Abs(u2) || (Abs(u1) == 1 && u2 == 0))
    && (v < u || (u == a && v == b && u1 == 1 && u2 == 0))
  }

  function {:induction false} HxgcdLoop(a: nat, b: nat, u: nat, v: nat, u1: int, u2: int): (r: (int, int))
    requires HxgcdInv(a, b, u, v, u1, u2)
    ensures r.0 == Gcd(a, b)
    ensures Divides(b, r.1 * a - r.0)
    ensures Abs(r.1) <= Max(b, 1)
    decreases v
  {
    if v == 0 then
      HxgcdExit(a, b, u, u1, u2);
      (u, u1)
    else
      var q := u / v;
      var r := u % v;
      HxgcdStep(a, b, u, v, u1, u2, q, r);
      HxgcdLoop(a, b, v, r, u2, u1 - q * u2)
  }

  lemma HxgcdExit(a: nat, b: nat, u: nat, u1: int, u2: int)
    requires HxgcdInv(a, b, u, 0, u1, u2)
    ensures u == Gcd(a, b) && Abs(u1) <= Max(b, 1)
  {
    assert Gcd(u, 0) == u;
    if u == 0 {
      GcdZero(a, b);
    } else {
      MulMonotone(Abs(u2), 1, u);
    }
  }

  lemma HxgcdStep(a: nat, b: nat, u: nat, v: nat, u1: int, u2: int, q: int, r: int)
    requires HxgcdInv(a, b, u, v, u1, u2)
    requires v > 0 && q == u / v && r == u % v
    ensures r >= 0
    ensures HxgcdInv(a, b, v, r, u2, u1 - q * u2)
  {
    DivFacts(u, v);
    CongruenceStep(a, b, u, v, u1, u2, q);
    GcdStep(u, v);
    CofactorStep(u1, u2, q, u, v, r, b);
  }

  lemma CongruenceStep(a: int, b: int, u: int, v: int, u1: int, u2: int, q: int)
    requires Divides(b, u1 * a - u) && Divides(b, u2 * a - v)
    ensures Divides(b, (u1 - q * u2) * a - (u - q * v))
  {
    var X, Y := u1 * a - u, u2 * a - v;
    calc {
      (u1 - q * u2) * a - (u - q * v);
      u1 * a - (q * u2) * a - u + q * v;
      { assert (q * u2) * a == q * (u2 * a); }
      u1 * a - u - q * (u2 * a) + q * v;
      { assert q * (u2 * a - v) == q * (u2 * a) - q * v; }
      X - q * Y;
    }
    if b != 0 {
      DividesLinear(b, X, Y, 1, -q);
      assert 1 * X + (-q) * Y == X - q * Y;
    } else {
      assert X == 0 && Y == 0;
      assert q * Y == 0;
    }
  }

  /** Half extended gcd: d = gcd(|a|,|b|) and s with s*a congruent to d modulo b. */
  function HXGCD(a: int, b: int): (r: Result<(int, int)>)
    requires IsInt32(a) && IsInt32(b)
    ensures r.Failure? <==> (a == MinInt32 || b == MinInt32)
    ensures r.Ok? ==> r.value.0 == Gcd(Abs(a), Abs(b))
    ensures r.Ok? ==> Divides(b, r.value.1 * a - r.value.0)
    ensures r.Ok? ==> Abs(r.value.1) <= Max(Abs(b), 1)
  {
    if a < -MaxInt32 || b < -MaxInt32 then Failure(OverflowMessage)
    else
      var A, B := Abs(a), Abs(b);
      HxgcdStart(A, B);
      var w := HxgcdLoop(A, B, A, B, 1, 0);
      var s := if a < 0 then -w.1 else w.1;
      HxgcdSigns(a, b, w.1, w.0);
      Ok((w.0, s))
  }

  lemma HxgcdStart(A: nat, B: nat)
    ensures HxgcdInv(A, B, A, B, 1, 0)
  {
    if B != 0 {
      ModMultiple(-1, B);
      assert 0 * A - B == -1 * B;
    }
  }

  lemma HxgcdSigns(a: int, b: int, s: int, d: int)
    requires Divides(Abs(b), s * Abs(a) - d)
    ensures Divides(b, (if a < 0 then -s else s) * a - d)
  {
    SignedCofactor(s, a);
    DividesAbsDivisor(b, s * Abs(a) - d);
  }

  lemma DividesAbsDivisor(d: int, x: int)
    ensures Divides(Abs(d), x) ==> Divides(d, x)
  {
    if d < 0 {
      DividesNeg(d, x);
    }
  }

  lemma DividesNeg(d: int, x: int)
    requires d != 0
    ensures Divides(d, x) <==> Divides(-d, x)
  {
    if Divides(d, x) {
      var q := x / d;
      assert x == q * d;
      assert x == (-q) * (-d);
      ModMultiple(-q, -d);
    }
    if Divides(-d, x) {
      var q := x / (-d);
      assert x == q * (-d);
      assert x == (-q) * d;
      ModMultiple(-q, d);
    }
  }

  // ---------------------------------------------------------------------
  // The ring Z/pZ
  // ---------------------------------------------------------------------

  /** A ring instance: the modulus p and the cached value of 2^64 mod p. */
  datatype PIR = PIR(p: int, two64: int)

  ghost predicate Valid(F: PIR)
  {
    1 <= F.p <= MaxInt32 && F.two64 == TwoTo64 % F.p
  }

  predicate IsElement(F: PIR, a: int) { 0 <= a < F.p }

  /** `PIRModular(value)`: the cached 2^64 mod p is computed as (2^32 mod p)^2 mod p. */
  function MakePIR(value: int): (F: PIR)
    requires 1 <= value <= MaxInt32
    ensures Valid(F) && F.p == value
    ensures (TwoTo32 % value) * (TwoTo32 % value) < TwoTo64
  {
    var h := TwoTo32 % value;
    assert h * h < TwoTo64 by {
      MulMonotone(h, h, MaxInt32);
      MulMonotone(MaxInt32, h, MaxInt32);
    }
    ModMul(TwoTo32, TwoTo32, value);
    assert TwoTo32 * TwoTo32 == TwoTo64;
    PIR(value, (h * h) % value)
  }

  /** The default constructor: modulus 65521. */
  function DefaultPIR(): (F: PIR)
    ensures Valid(F) && F.p == 65521
  {
    MakePIR(65521)
  }

  /** Ring multiplication (Givaro's `mul`/`mulin`), reduced into [0, p). */
  function Mul(F: PIR, a: int, b: int): (r: int)
    requires F.p >= 1
    ensures IsElement(F, r)
  {
    (a * b) % F.p
  }

  /** a divides b in the ring Z/pZ. */
  ghost predicate RingDivides(F: PIR, a: int, b: int)
    requires F.p >= 1
  {
    exists c :: IsElement(F, c) && Mul(F, a, c) == b % F.p
  }

  /** Ring gcd: the integer gcd of the two representatives, a common divisor that every common divisor divides. */
  function RingGcd(F: PIR, a: int, b: int): (g: int)
    requires Valid(F) && IsElement(F, a) && IsElement(F, b)
    ensures g == Gcd(a, b)
    ensures g >= 0 && Divides(g, a) && Divides(g, b)
    ensures forall d :: Divides(d, a) && Divides(d, b) ==> Divides(d, g)
    ensures g == 0 <==> a == 0 && b == 0
  {
    GcdLoop(a, b)
  }

  datatype Xgcd = Xgcd(g: int, s: int, t: int)

  /** `xgcd`: XGCD, then each negative cofactor is made non-negative by adding p once. */
  function RingXgcd(F: PIR, a: int, b: int): (r: Xgcd)
    requires Valid(F) && IsElement(F, a) && IsElement(F, b)
    ensures r.g == Gcd(a, b)
    ensures 0 <= r.s <= F.p && 0 <= r.t <= F.p
    ensures (r.s * a + r.t * b) % F.p == r.g % F.p
    ensures (r.s - XGCD(a, b).value.s) % F.p == 0 && (r.t - XGCD(a, b).value.t) % F.p == 0
  {
    var w := XGCD(a, b).value;
    ShiftBezout(w.s, w.t, a, b, w.d, F.p);
    Xgcd(w.d, Lift(w.s, F.p), Lift(w.t, F.p))
  }

  /** A negative cofactor gains p once. */
  function Lift(v: int, p: int): int
  {
    if v < 0 then v + p else v
  }

  /** Adding p to negative cofactors keeps the Bezout identity modulo p. */
  lemma ShiftBezout(s: int, t: int, a: int, b: int, d: int, p: int)
    requires p > 0 && s * a + t * b == d
    ensures (Lift(s, p) * a + Lift(t, p) * b) % p == d % p
    ensures (Lift(s, p) - s) % p == 0 && (Lift(t, p) - t) % p == 0
  {
    var ks := if s < 0 then 1 else 0;
    var kt := if t < 0 then 1 else 0;
    assert Lift(s, p) == s + ks * p && Lift(t, p) == t + kt * p;
    assert (s + ks * p) * a + (t + kt * p) * b == d + (ks * a + kt * b) * p;
    CongruentByMultiple((s + ks * p) * a + (t + kt * p) * b, d, ks * a + kt * b, p);
    ModMultiple(ks, p);
    ModMultiple(kt, p);
  }

  datatype Dxgcd = Dxgcd(g: int, s: int, t: int, a1: int, b1: int)

  /** `dxgcd`: xgcd plus the cofactors a/g and b/g (or s and t when g == 0). */
  function RingDxgcd(F: PIR, a: int, b: int): (r: Dxgcd)
    requires Valid(F) && IsElement(F, a) && IsElement(F, b)
    ensures r.g == Gcd(a, b)
    ensures r.g == 0 <==> a == 0 && b == 0
    ensures r.g != 0 ==> r.a1 * r.g == a && r.b1 * r.g == b
    ensures (r.s * a + r.t * b) % F.p == r.g % F.p
    ensures 0 <= r.s <= F.p && 0 <= r.t <= F.p
  {
    var x := RingXgcd(F, a, b);
    GcdZero(a, b);
    if x.g != 0 then
      GcdDivides(a, b);
      DivExact(a, x.g);
      DivExact(b, x.g);
      Dxgcd(x.g, x.s, x.t, a / x.g, b / x.g)
    else
      Dxgcd(x.g, x.s, x.t, x.s, x.t)
  }

  lemma DivExact(a: int, g: int)
    requires g > 0 && a % g == 0
    ensures (a / g) * g == a
  {
  }

  /** `isDivisor(a, b)`: false for a == 0, true for b == 0, else gcd(a, p) divides b. */
  function IsDivisor(F: PIR, a: int, b: int): (r: bool)
    requires Valid(F) && IsElement(F, a) && IsElement(F, b)
    ensures r <==> a != 0 && (b == 0 || Divides(Gcd(a, F.p), b))
  {
    if a == 0 then false
    else if b == 0 then true
    else
      var g := GCD(a, F.p).value;
      GcdDivides(a, F.p);
      GcdGreatest(a, F.p, g);
      GcdZero(a, F.p);
      DividesAntisym(g, Gcd(a, F.p));
      b % g == 0
  }

  /** For a != 0, `isDivisor` decides divisibility in the ring Z/pZ. */
  lemma IsDivisorIsRingDivisibility(F: PIR, a: int, b: int)
    requires Valid(F) && IsElement(F, a) && IsElement(F, b) && a != 0
    ensures IsDivisor(F, a, b) <==> RingDivides(F, a, b)
  {
    if IsDivisor(F, a, b) {
      if b == 0 {
        assert Mul(F, a, 0) == b % F.p;
      } else {
        var c := Multiplier(F, a, b);
      }
    }
    if RingDivides(F, a, b) {
      var c :| IsElement(F, c) && Mul(F, a, c) == b % F.p;
      MultipleDividedByGcd(a, c, b, F.p);
    }
  }

  /** Whatever a*c reduces to modulo p is a multiple of gcd(a, p). */
  lemma MultipleDividedByGcd(a: nat, c: int, b: int, p: int)
    requires p > 0 && (a * c) % p == b % p
    ensures Divides(Gcd(a, p), b)
  {
    var g := Gcd(a, p);
    GcdZero(a, p);
    GcdDivides(a, p);
    var ac := a * c;
    var k := ac / p;
    var k2 := b / p;
    Regroup(ac, b, k, k2, p, b % p);
    assert b == c * a + (k2 - k) * p;
    DividesLinear(g, a, p, c, k2 - k);
  }

  /** Two numbers with the same remainder modulo p differ by a multiple of p. */
  lemma Regroup(x: int, y: int, k: int, k2: int, p: int, r: int)
    requires p > 0 && k == x / p && k2 == y / p && r == x % p && r == y % p
    ensures y == x + (k2 - k) * p
  {
    assert x == k * p + r;
    assert y == k2 * p + r;
    assert (k2 - k) * p == k2 * p - k * p;
  }

  /** A witness c with a*c = b (mod p) when gcd(a, p) divides b. */
  function Multiplier(F: PIR, a: int, b: int): (c: int)
    requires Valid(F) && IsElement(F, a) && IsElement(F, b) && a != 0
    requires Divides(Gcd(a, F.p), b)
    ensures IsElement(F, c) && Mul(F, a, c) == b % F.p
  {
    var h := HXGCD(a, F.p).value;
    var g := h.0;
    var s := h.1;
    GcdZero(a, F.p);
    var k := (s * a - g) / F.p;
    var q := b / g;
    MultiplierIdentity(a, s, g, k, q, b, F.p);
    var c := (q * s) % F.p;
    ModMulRight(a, q * s, F.p);
    CongruentByMultiple(a * (q * s), b, q * k, F.p);
    c
  }

  /** From s*a = g + k*p and b = q*g: a*(q*s) = b + (q*k)*p. */
  lemma MultiplierIdentity(a: int, s: int, g: int, k: int, q: int, b: int, p: int)
    requires p > 0 && g > 0 && Divides(p, s * a - g) && k == (s * a - g) / p
    requires Divides(g, b) && q == b / g
    ensures a * (q * s) == b + (q * k) * p
  {
    assert s * a == g + k * p;
    assert b == q * g;
    calc {
      a * (q * s);
      q * (s * a);
      q * (g + k * p);
      q * g + q * (k * p);
      b + (q * k) * p;
    }
  }

  /** `isUnit(a)`: gcd(a, p) == 1. */
  function IsUnit(F: PIR, a: int): (r: bool)
    requires Valid(F) && IsElement(F, a)
    ensures r <==> Gcd(a, F.p) == 1
  {
    GCD(a, F.p).value == 1
  }

  /** An element is a unit exactly when it has a multiplicative inverse modulo p. */
  lemma IsUnitIsInvertible(F: PIR, a: int)
    requires Valid(F) && IsElement(F, a) && F.p >= 2
    ensures IsUnit(F, a) <==> RingDivides(F, a, 1)
  {
    if IsUnit(F, a) {
      assert a != 0 by {
        assert Gcd(0, F.p) == F.p by { GcdSym(0, F.p); }
      }
      var c := Multiplier(F, a, 1);
    }
    if RingDivides(F, a, 1) {
      var c :| IsElement(F, c) && Mul(F, a, c) == 1 % F.p;
      MultipleDividedByGcd(a, c, 1, F.p);
      GcdZero(a, F.p);
      DividesLe(Gcd(a, F.p), 1);
    }
  }

  /** `div(a, b)`: a / gcd(b, p) times the HXGCD cofactor of b, or the PreconditionFailed throw. */
  function Div(F: PIR, a: int, b: int): (r: Result<int>)
    requires Valid(F) && IsElement(F, a) && IsElement(F, b)
    ensures r.Failure? <==> !Divides(Gcd(b, F.p), a)
    ensures r.Ok? ==> IsElement(F, r.value) && Mul(F, r.value, b) == a
  {
    var h := HXGCD(b, F.p).value;
    var g := h.0;
    var s := h.1;
    GcdZero(b, F.p);
    if a % g != 0 then Failure(NotDividableMessage)
    else
      DivCorrect(F, a, b, g, s);
      Ok(Mul(F, a / g, s))
  }

  lemma DivCorrect(F: PIR, a: int, b: int, g: int, s: int)
    requires Valid(F) && IsElement(F, a) && IsElement(F, b)
    requires g > 0 && a % g == 0 && Divides(F.p, s * b - g)
    ensures Mul(F, Mul(F, a / g, s), b) == a
  {
    ScaledInverse(a, b, g, s, F.p);
    ModUnique(a, F.p, 0, a);
  }

  /** With s*b = g (mod p) and g | a, (a/g)*s is a quotient of a by b modulo p. */
  lemma ScaledInverse(a: int, b: int, g: int, s: int, p: int)
    requires p > 0 && g > 0 && a % g == 0 && (s * b - g) % p == 0
    ensures (((a / g) * s) % p * b) % p == a % p
  {
    var q := a / g;
    DivExact(a, g);
    var k := (s * b - g) / p;
    assert s * b - g == k * p;
    assert (q * s) * b == q * (s * b);
    assert q * (s * b) == q * g + (q * k) * p;
    ModMulRight(b, q * s, p);
    CongruentByMultiple((q * s) * b, a, q * k, p);
  }

  /** `normal(b)`: 0 for 0, otherwise gcd(b, p), the canonical associate of b. */
  function Normal(F: PIR, b: int): (r: int)
    requires Valid(F) && IsElement(F, b)
    ensures r == 0 <==> b == 0
    ensures r != 0 ==> r > 0 && Divides(r, b) && Divides(r, F.p)
    ensures r != 0 ==> forall d :: d != 0 && Divides(d, b) && Divides(d, F.p) ==> Divides(d, r)
  {
    if b == 0 then 0
    else
      var g := GCD(b, F.p).value;
      GcdZero(b, F.p);
      GcdDivides(b, F.p);
      GcdGreatest(b, F.p, g);
      DividesAntisym(g, Gcd(b, F.p));
      g
  }

  /** b and normal(b) generate the same ideal of Z/pZ. */
  lemma NormalIsAssociate(F: PIR, b: int)
    requires Valid(F) && IsElement(F, b) && b != 0
    ensures IsElement(F, Normal(F, b))
    ensures RingDivides(F, b, Normal(F, b)) && RingDivides(F, Normal(F, b), b)
  {
    var n := Normal(F, b);
    DividesLe(n, b);
    DividesSelf(n);
    GcdDivides(b, F.p);
    var c := Multiplier(F, b, n);
    GcdDivides(n, F.p);
    GcdZero(n, F.p);
    GcdGreatest(n, F.p, n);
    DividesAntisym(n, Gcd(n, F.p));
    var e := Multiplier(F, n, b);
  }

  lemma DividesSelf(n: int)
    ensures Divides(n, n)
  {
    if n != 0 {
      ModMultiple(1, n);
    }
  }

  // ---------------------------------------------------------------------
  // FieldAXPY and the dense dot product
  // ---------------------------------------------------------------------

  /** The uint64 accumulator `_y` of `FieldAXPY<PIRModular<int32_t>>`. */
  datatype Axpy = Axpy(y: int)

  /** The sum of products a[i]*x[i] over the integers. */
  function Dot(a: seq<int>, x: seq<int>): int
    requires |a| <= |x|
  {
    if |a| == 0 then 0 else Dot(a[..|a| - 1], x) + a[|a| - 1] * x[|a| - 1]
  }

  /**
   * `mulacc`: add the 64-bit product; when the unsigned sum wrapped
   * (it became smaller than the addend), add 2^64 mod p back.
   */
  function MulAcc(F: PIR, acc: Axpy, a: int, x: int): (r: Axpy)
    requires Valid(F) && IsUint64(acc.y) && IsElement(F, a) && IsElement(F, x)
    ensures IsUint64(r.y)
    ensures r.y % F.p == (acc.y + a * x) % F.p
  {
    var t := a * x;
    ProductBound(a, x);
    var y := (acc.y + t) % TwoTo64;
    if y < t then
      Wrapped(acc.y, t, F.p);
      Axpy(y + F.two64)
    else
      NoWrap(acc.y, t);
      Axpy(y)
  }

  /** A product of two int32 magnitudes fits in 62 bits. */
  lemma ProductBound(a: nat, x: nat)
    requires a <= MaxInt32 && x <= MaxInt32
    ensures a * x < TwoTo64 / 4
  {
    MulMonotone(a, x, MaxInt32);
    MulMonotone(MaxInt32, a, MaxInt32);
  }

  /** After an unsigned wrap, adding 2^64 mod p restores the residue, and cannot wrap again. */
  lemma Wrapped(y: int, t: int, p: int)
    requires IsUint64(y) && 0 <= t < TwoTo64 / 4 && 1 <= p <= MaxInt32
    requires (y + t) % TwoTo64 < t
    ensures (y + t) % TwoTo64 + TwoTo64 % p < TwoTo64
    ensures ((y + t) % TwoTo64 + TwoTo64 % p) % p == (y + t) % p
  {
    ModUnique(y + t, TwoTo64, 1, y + t - TwoTo64);
    var w := (y + t) % TwoTo64;
    assert y + t == w + TwoTo64;
    assert TwoTo64 == (TwoTo64 / p) * p + TwoTo64 % p;
    CongruentByMultiple(y + t, w + TwoTo64 % p, TwoTo64 / p, p);
  }

  /** An unsigned 64-bit sum that did not come out below its addend did not wrap. */
  lemma NoWrap(y: int, t: int)
    requires IsUint64(y) && IsUint64(t) && (y + t) % TwoTo64 >= t
    ensures (y + t) % TwoTo64 == y + t
  {
    if y + t >= TwoTo64 {
      ModUnique(y + t, TwoTo64, 1, y + t - TwoTo64);
    } else {
      ModUnique(y + t, TwoTo64, 0, y + t);
    }
  }

  /** `get`: the accumulated value reduced modulo p. */
  function AxpyGet(F: PIR, acc: Axpy): (r: int)
    requires Valid(F) && IsUint64(acc.y)
    ensures IsElement(F, r)
  {
    acc.y % F.p
  }

  /** Accumulating a[i]*x[i] from a reset accumulator, in order. */
  function AccumulateAll(F: PIR, a: seq<int>, x: seq<int>): (r: Axpy)
    requires Valid(F) && |a| <= |x|
    requires forall i :: 0 <= i < |a| ==> IsElement(F, a[i]) && IsElement(F, x[i])
    ensures IsUint64(r.y)
  {
    if |a| == 0 then Axpy(0)
    else MulAcc(F, AccumulateAll(F, a[..|a| - 1], x), a[|a| - 1], x[|a| - 1])
  }

  /** Whatever wrap-arounds happened, `get` after the mulacc's is the dot product modulo p. */
  lemma {:induction false} AccumulateIsDotModP(F: PIR, a: seq<int>, x: seq<int>)
    requires Valid(F) && |a| <= |x|
    requires forall i :: 0 <= i < |a| ==> IsElement(F, a[i]) && IsElement(F, x[i])
    ensures AxpyGet(F, AccumulateAll(F, a, x)) == Dot(a, x) % F.p
  {
    if |a| > 0 {
      var n := |a| - 1;
      AccumulateIsDotModP(F, a[..n], x);
      var prev := AccumulateAll(F, a[..n], x);
      ModAdd(prev.y, a[n] * x[n], F.p);
      ModAdd(Dot(a[..n], x), a[n] * x[n], F.p);
    }
  }

  /** `dotSpecializedDD`: the dense dot product with the same wrap-around repair, reduced modulo p. */
  method DotSpecializedDD(F: PIR, v1: seq<int>, v2: seq<int>) returns (res: int)
    requires Valid(F) && |v1| <= |v2|
    requires forall i :: 0 <= i < |v1| ==> IsElement(F, v1[i]) && IsElement(F, v2[i])
    ensures IsElement(F, res)
    ensures res == Dot(v1, v2) % F.p
  {
    var y := 0;
    var i := 0;
    while i < |v1|
      invariant 0 <= i <= |v1|
      invariant IsUint64(y)
      invariant y % F.p == Dot(v1[..i], v2) % F.p
    {
      var t := v1[i] * v2[i];
      assert t < TwoTo64 by {
        MulMonotone(v1[i], v2[i], MaxInt32);
        MulMonotone(MaxInt32, v1[i], MaxInt32);
      }
      var acc := MulAcc(F, Axpy(y), v1[i], v2[i]);
      var prev := y;
      y := (y + t) % TwoTo64;
      if y < t {
        y := y + F.two64;
      }
      assert y == acc.y;
      assert v1[..i + 1][..i] == v1[..i];
      ModAdd(Dot(v1[..i], v2), t, F.p);
      ModAdd(prev, t, F.p);
      i := i + 1;
    }
    assert v1[..|v1|] == v1;
    res := y % F.p;
  }
}
