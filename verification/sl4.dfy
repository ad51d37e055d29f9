/**
 * The index and bracket helpers of `sl4_rk.py`, which builds the structure
 * tensor of the Lie algebra sl_n on the basis of matrix units.
 *
 * A basis index x in [0, n^2 - 1) names the pair `ind(x)` = [x div n, x mod n];
 * an off-diagonal pair [i, j] stands for the matrix unit E_ij, a diagonal one
 * [i, i] for E_ii - E_(i+1)(i+1). `LB` brackets two matrix units and `LBD`
 * brackets a matrix unit with a basis element, returning the terms whose
 * signs alternate + - + -, with 0 (here `NoTerm`) for a term that vanishes.
 *
 * n, read from the standard input by the script, is a parameter. The
 * commutator of matrices given entrywise is the reference the brackets are
 * proved against.
 */
module Sl4Bracket {
  import opened Util

  /** A two-element index list [i, j]. */
  datatype Pair = Pair(fst: int, snd: int)

  /** A bracket term: the list [i, j], or the integer 0 for "no term". */
  datatype Term = NoTerm | Elem(p: Pair)

  // ---------------------------------------------------------------------
  // ind and iind
  // ---------------------------------------------------------------------

  /** Python's `floor(x / n)` of two integers, taken exactly. */
  function FloorDiv(x: int, n: int): int
    requires n != 0
  {
    if n > 0 then x / n else (-x) / (-n)
  }

  /** Python's `x % n`: the remainder that takes the sign of n. */
  function FloorMod(x: int, n: int): int
    requires n != 0
  {
    x - n * FloorDiv(x, n)
  }

  /** `ind(x)`: the pair [floor(x / n), x % n]; its remainder lies between 0 and n. */
  function Ind(n: int, x: int): (c: Pair)
    requires n != 0
    ensures n * c.fst + c.snd == x
    ensures n > 0 ==> 0 <= c.snd < n
    ensures n < 0 ==> n < c.snd <= 0
  {
    var q := FloorDiv(x, n);
    assert n < 0 ==> n < FloorMod(x, n) <= 0 by {
      if n < 0 {
        assert (-x) == (-n) * q + (-x) % (-n);
      }
    }
    Pair(q, FloorMod(x, n))
  }

  /** `iind(x)`: -1 for the integer 0, n * x[0] + x[1] for a pair. */
  function Iind(n: int, t: Term): int
  {
    match t
    case NoTerm => -1
    case Elem(p) => n * p.fst + p.snd
  }

  /** iind undoes ind, for every x and every non-zero n. */
  lemma IindInd(n: int, x: int)
    requires n != 0
    ensures Iind(n, Elem(Ind(n, x))) == x
  {
  }

  /** ind undoes iind on pairs whose second index is below n. */
  lemma IndIind(n: int, p: Pair)
    requires n > 0 && 0 <= p.snd < n
    ensures Ind(n, Iind(n, Elem(p))) == p
  {
    ModUnique(n * p.fst + p.snd, n, p.fst, p.snd);
  }

  /** A basis index below n^2 names a pair of indices below n. */
  lemma IndInRange(n: int, x: int)
    requires n > 0 && 0 <= x < n * n
    ensures 0 <= Ind(n, x).fst < n && 0 <= Ind(n, x).snd < n
  {
  }

  /** The sentinel -1 of "no term" is the index of no pair of non-negative indices. */
  lemma SentinelDistinct(n: int, p: Pair)
    requires n > 0 && p.fst >= 0 && p.snd >= 0
    ensures Iind(n, NoTerm) == -1 && Iind(n, Elem(p)) != Iind(n, NoTerm)
  {
  }

  // ---------------------------------------------------------------------
  // LB, LBD and replace
  // ---------------------------------------------------------------------

  /**
   * `LB(E, a)`: the two terms of [E_(E0)(E1), E_(a0)(a1)]. The first is
   * [E0, a1] when a0 == E1, the second [a0, E1] when a1 == E0.
   */
  function LB(E: Pair, a: Pair): (c: (Term, Term))
    ensures c.0 != NoTerm <==> a.fst == E.snd
    ensures c.1 != NoTerm <==> a.snd == E.fst
  {
    if a.fst == E.snd then
      (Elem(Pair(E.fst, a.snd)), if a.snd == E.fst then Elem(Pair(a.fst, E.snd)) else NoTerm)
    else
      (NoTerm, if a.snd == E.fst then Elem(Pair(a.fst, E.snd)) else NoTerm)
  }

  /**
   * `LBD(E, a)`: for a diagonal a = [i, i] the terms of [E, E_ii] followed by
   * those of [E, E_(i+1)(i+1)] in swapped order; otherwise the terms of LB.
   */
  function LBD(E: Pair, a: Pair): (c: seq<Term>)
    ensures |c| == if a.fst == a.snd then 4 else 2
    ensures c[0] == LB(E, a).0 && c[1] == LB(E, a).1
  {
    if a.fst == a.snd then
      var c := LB(E, a);
      var d := LB(E, Pair(a.fst + 1, a.snd + 1));
      [c.0, c.1] + [d.1, d.0]
    else
      var c := LB(E, a);
      [c.0, c.1]
  }

  /** Python's reading of index k into a list of length len: negative k counts from the end. */
  function PyIndex(len: nat, k: int): (i: int)
    ensures -1 <= i < len
  {
    if 0 <= k < len then k else if -(len as int) <= k < 0 then len + k else -1
  }

  /**
   * `replace(q, v, k)`: q[k] := v[0], then q[k + 1] := v[1], on q itself.
   * The result is the state of q afterwards, which is also the returned list,
   * and whether both assignments ran; an index out of range raises
   * IndexError, after the first assignment when only k + 1 is out of range.
   */
  function Replace(q: seq<int>, v: Pair, k: int): (r: (seq<int>, bool))
    ensures |r.0| == |q|
    ensures r.1 <== (PyIndex(|q|, k) >= 0 && PyIndex(|q|, k + 1) >= 0)
    ensures r.1 ==> PyIndex(|q|, k) >= 0 && PyIndex(|q|, k + 1) >= 0
    ensures r.1 ==> r.0[PyIndex(|q|, k + 1)] == v.snd
    ensures PyIndex(|q|, k) >= 0 && PyIndex(|q|, k) != PyIndex(|q|, k + 1) ==> r.0[PyIndex(|q|, k)] == v.fst
    ensures forall i :: 0 <= i < |q| && i != PyIndex(|q|, k) && i != PyIndex(|q|, k + 1) ==> r.0[i] == q[i]
  {
    var i := PyIndex(|q|, k);
    if i < 0 then (q, false)
    else
      var q1 := q[i := v.fst];
      var i1 := PyIndex(|q|, k + 1);
      if i1 < 0 then (q1, false) else (q1[i1 := v.snd], true)
  }

  /** Replacing with the old values at k and k + 1 restores the list. */
  lemma ReplaceRestores(q: seq<int>, v: Pair, k: int)
    requires 0 <= k && k + 1 < |q|
    ensures Replace(Replace(q, v, k).0, Pair(q[k], q[k + 1]), k) == (q, true)
  {
    var r := Replace(q, v, k).0;
    assert Replace(r, Pair(q[k], q[k + 1]), k).0 == q;
  }

  // ---------------------------------------------------------------------
  // The reference: commutators of n x n matrices given entrywise
  // ---------------------------------------------------------------------

  /** f(0) + ... + f(n - 1). */
  function Sum(n: nat, f: int -> int): int
  {
    if n == 0 then 0 else Sum(n - 1, f) + f(n - 1)
  }

  /** k -> A(r, k) * B(k, s), the products summed for entry (r, s) of A B. */
  function RowCol(A: (int, int) -> int, B: (int, int) -> int, r: int, s: int): int -> int
  {
    k => A(r, k) * B(k, s)
  }

  /** Entry (r, s) of the product of the n x n matrices A and B. */
  function MatMul(n: nat, A: (int, int) -> int, B: (int, int) -> int, r: int, s: int): int
  {
    Sum(n, RowCol(A, B, r, s))
  }

  /** Entry (r, s) of the commutator A B - B A. */
  function Commutator(n: nat, A: (int, int) -> int, B: (int, int) -> int, r: int, s: int): int
  {
    MatMul(n, A, B, r, s) - MatMul(n, B, A, r, s)
  }

  /** The matrix unit E_ij of the pair [i, j]. */
  function Unit(p: Pair): (int, int) -> int
  {
    (r: int, s: int) => if r == p.fst && s == p.snd then 1 else 0
  }

  /** The matrix a term stands for: its matrix unit, or zero. */
  function TermMat(t: Term): (int, int) -> int
  {
    match t
    case NoTerm => (r: int, s: int) => 0
    case Elem(p) => Unit(p)
  }

  /** The basis element of a pair: E_ij off the diagonal, E_ii - E_(i+1)(i+1) on it. */
  function Basis(a: Pair): (int, int) -> int
  {
    if a.fst == a.snd then
      (r: int, s: int) => Unit(a)(r, s) - Unit(Pair(a.fst + 1, a.snd + 1))(r, s)
    else Unit(a)
  }

  /** Entry (r, s) of the terms summed with the signs + - + - of the structure tensor. */
  function SignedSum(ts: seq<Term>, r: int, s: int): int
  {
    if |ts| == 0 then 0 else TermMat(ts[0])(r, s) - SignedSum(ts[1..], r, s)
  }

  lemma SignedSumPair(t0: Term, t1: Term, r: int, s: int)
    ensures SignedSum([t0, t1], r, s) == TermMat(t0)(r, s) - TermMat(t1)(r, s)
  {
    assert [t0, t1][1..] == [t1];
    assert [t1][1..] == [];
    assert SignedSum([t1], r, s) == TermMat(t1)(r, s) - SignedSum([], r, s);
  }

  predicate Inside(n: nat, p: Pair)
  {
    0 <= p.fst < n && 0 <= p.snd < n
  }

  /** A sum whose terms vanish except at k0 is the term at k0, or 0 when k0 is out of range. */
  lemma {:induction false} SumSingle(n: nat, f: int -> int, k0: int)
    requires forall k :: 0 <= k < n && k != k0 ==> f(k) == 0
    ensures Sum(n, f) == if 0 <= k0 < n then f(k0) else 0
  {
    if n > 0 {
      SumSingle(n - 1, f, k0);
    }
  }

  /** E_ij B has row i equal to row j of B and zeros elsewhere. */
  lemma MulUnitLeft(n: nat, E: Pair, B: (int, int) -> int, r: int, s: int)
    requires Inside(n, E)
    ensures MatMul(n, Unit(E), B, r, s) == if r == E.fst then B(E.snd, s) else 0
  {
    var f := RowCol(Unit(E), B, r, s);
    assert forall k :: 0 <= k < n && k != E.snd ==> f(k) == 0;
    SumSingle(n, f, E.snd);
  }

  /** B E_ij has column j equal to column i of B and zeros elsewhere. */
  lemma MulUnitRight(n: nat, B: (int, int) -> int, E: Pair, r: int, s: int)
    requires Inside(n, E)
    ensures MatMul(n, B, Unit(E), r, s) == if s == E.snd then B(r, E.fst) else 0
  {
    var f := RowCol(B, Unit(E), r, s);
    assert forall k :: 0 <= k < n && k != E.fst ==> f(k) == 0;
    SumSingle(n, f, E.fst);
  }

  lemma CommutatorWithUnit(n: nat, E: Pair, B: (int, int) -> int, r: int, s: int)
    requires Inside(n, E)
    ensures Commutator(n, Unit(E), B, r, s) ==
      (if r == E.fst then B(E.snd, s) else 0) - (if s == E.snd then B(r, E.fst) else 0)
  {
    MulUnitLeft(n, E, B, r, s);
    MulUnitRight(n, B, E, r, s);
  }

  /**
   * LB is the bracket of matrix units: its first term minus its second is
   * the commutator [E_(E0)(E1), E_(a0)(a1)], entry by entry.
   */
  lemma LBIsCommutator(n: nat, E: Pair, a: Pair, r: int, s: int)
    requires Inside(n, E)
    ensures SignedSum([LB(E, a).0, LB(E, a).1], r, s) == Commutator(n, Unit(E), Unit(a), r, s)
  {
    CommutatorWithUnit(n, E, Unit(a), r, s);
    SignedSumPair(LB(E, a).0, LB(E, a).1, r, s);
  }

  lemma SignedSumFour(t0: Term, t1: Term, t2: Term, t3: Term, r: int, s: int)
    ensures SignedSum([t0, t1, t2, t3], r, s) ==
      (TermMat(t0)(r, s) - TermMat(t1)(r, s)) - (TermMat(t3)(r, s) - TermMat(t2)(r, s))
  {
    var ts := [t0, t1, t2, t3];
    SignedSumPair(t2, t3, r, s);
    assert ts[1..][1..] == [t2, t3];
    assert SignedSum(ts[1..], r, s) == TermMat(t1)(r, s) - SignedSum([t2, t3], r, s);
  }

  /** The bracket with E_ii - E_(i+1)(i+1) is the difference of the brackets with the two units. */
  lemma CommutatorBasisDiagonal(n: nat, E: Pair, a: Pair, r: int, s: int)
    requires Inside(n, E) && a.fst == a.snd
    ensures Commutator(n, Unit(E), Basis(a), r, s) ==
      Commutator(n, Unit(E), Unit(a), r, s) - Commutator(n, Unit(E), Unit(Pair(a.fst + 1, a.snd + 1)), r, s)
  {
    var a1 := Pair(a.fst + 1, a.snd + 1);
    CommutatorWithUnit(n, E, Basis(a), r, s);
    CommutatorWithUnit(n, E, Unit(a), r, s);
    CommutatorWithUnit(n, E, Unit(a1), r, s);
    assert Basis(a)(E.snd, s) == Unit(a)(E.snd, s) - Unit(a1)(E.snd, s);
    assert Basis(a)(r, E.fst) == Unit(a)(r, E.fst) - Unit(a1)(r, E.fst);
  }

  /**
   * LBD is the bracket with a basis element: its terms summed with the signs
   * + - + - of the structure tensor give [E_(E0)(E1), basis element of a].
   */
  lemma LBDIsCommutator(n: nat, E: Pair, a: Pair, r: int, s: int)
    requires Inside(n, E)
    ensures SignedSum(LBD(E, a), r, s) == Commutator(n, Unit(E), Basis(a), r, s)
  {
    var ts := LBD(E, a);
    if a.fst == a.snd {
      var a1 := Pair(a.fst + 1, a.snd + 1);
      assert ts == [LB(E, a).0, LB(E, a).1, LB(E, a1).1, LB(E, a1).0];
      SignedSumFour(ts[0], ts[1], ts[2], ts[3], r, s);
      LBIsCommutator(n, E, a, r, s);
      LBIsCommutator(n, E, a1, r, s);
      SignedSumPair(LB(E, a).0, LB(E, a).1, r, s);
      SignedSumPair(LB(E, a1).0, LB(E, a1).1, r, s);
      CommutatorBasisDiagonal(n, E, a, r, s);
    } else {
      CommutatorWithUnit(n, E, Basis(a), r, s);
      SignedSumPair(ts[0], ts[1], r, s);
      assert ts == [ts[0], ts[1]];
    }
  }
}
