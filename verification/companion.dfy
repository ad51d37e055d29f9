/**
 * The companion matrix of a polynomial, built in CSR storage by `setEntry`
 * calls: ones on the subdiagonal and the negated coefficients in the last
 * column.
 *
 * The field enters only through its `one` and its `neg`, which are
 * parameters here; the polynomial P holds its coefficients P[0..n], with
 * P[n] the leading one, which the construction does not read.
 */
module Companion {
  import opened CsrMatrix
  import SparseRows

  /** The entry (x, y) of the n x n companion matrix of P, for the column-last layout. */
  function CompanionEntry(one: int, neg: int -> int, P: seq<int>, x: nat, y: nat): int
    requires |P| >= 1 && x < |P| - 1
  {
    var n := |P| - 1;
    if y == n - 1 then neg(P[x])
    else if y + 1 == x then one
    else 0
  }

  /** The entry (x, y) after the first loop's steps for rows 1 .. i - 1. */
  function OnesEntry(one: int, i: nat, x: nat, y: nat): int
  {
    if x < i && y + 1 == x then one else 0
  }

  /** The n x n matrix after the first loop's steps for rows 1 .. i - 1. */
  ghost predicate OnesBelow(B: Csr, n: nat, one: int, i: nat)
  {
    && Valid(B) && ZeroFree(B) && B.rownb == n && B.colnb == n
    && forall x: nat, y: nat :: x < n ==> Entry(B, x, y) == OnesEntry(one, i, x, y)
  }

  /** C reads e at (i, j) and the entries of B elsewhere, as `setEntry(i, j, e)` leaves it. */
  ghost predicate Updated(B: Csr, C: Csr, i: nat, j: nat, e: int)
  {
    && Valid(B) && Valid(C) && (ZeroFree(B) ==> ZeroFree(C))
    && C.rownb == B.rownb && C.colnb == B.colnb
    && forall x: nat, y: nat :: x < B.rownb ==> Entry(C, x, y) == if x == i && y == j then e else Entry(B, x, y)
  }

  /** `setEntry` leaves the matrix it returns updated at one entry. */
  lemma SetEntryIsUpdate(B: Csr, i: nat, j: nat, e: int)
    requires Valid(B) && i < B.rownb && j < B.colnb
    ensures Updated(B, SetEntry(B, i, j, e), i, j, e)
  {
    SetEntryUpdates(B, i, j, e);
  }

  /**
   * `setEntry` as written leaves the matrix updated at one entry whenever
   * the value is non-zero or the row stores no column above j.
   */
  lemma SetEntryAsWrittenIsUpdate(B: Csr, i: nat, j: nat, e: int)
    requires Valid(B) && i < B.rownb && j < B.colnb
    requires e != 0 || !NeighbourAbove(B, i, j)
    ensures Updated(B, SetEntryAsWritten(B, i, j, e), i, j, e)
  {
    SetEntryAsWrittenAgrees(B, i, j, e);
    SetEntryIsUpdate(B, i, j, e);
  }

  /** A zero-free row that reads zero everywhere stores nothing, so no column lies above j. */
  lemma ZeroRowNoNeighbour(B: Csr, i: nat, j: nat)
    requires Valid(B) && ZeroFree(B) && i < B.rownb
    requires forall y: nat :: Entry(B, i, y) == 0
    ensures !NeighbourAbove(B, i, j)
  {
    var r := RowOf(B, i);
    if |r| > 0 {
      assert Entry(B, i, r[0].0) == 0;
      SparseRows.StoredIffNonZero(r, r[0].0);
      assert false;
    }
  }

  /** No stored column lies above the last one. */
  lemma LastColumnNoNeighbour(B: Csr, i: nat)
    requires Valid(B) && i < B.rownb && B.colnb >= 1
    ensures !NeighbourAbove(B, i, B.colnb - 1)
  {
    var r := RowOf(B, i);
    forall p | B.start[i] <= p < B.start[i + 1]
      ensures B.colid[p] < B.colnb
    {
      assert r[p - B.start[i]].0 == B.colid[p];
    }
  }

  /** One step of the first loop, `setEntry(i, i - 1, one)`. */
  lemma OnesStep(B: Csr, C: Csr, n: nat, one: int, i: nat)
    requires OnesBelow(B, n, one, i) && 1 <= i < n && Updated(B, C, i, i - 1, one)
    ensures OnesBelow(C, n, one, i + 1)
  {
  }

  /** The first loop's body applied: `setEntry(i, i - 1, one)` on the matrix so far. */
  lemma OnesSet(B: Csr, n: nat, one: int, i: nat)
    requires OnesBelow(B, n, one, i) && 1 <= i < n
    ensures OnesBelow(SetEntryAsWritten(B, i, i - 1, one), n, one, i + 1)
  {
    ZeroRowNoNeighbour(B, i, i - 1);
    SetEntryAsWrittenIsUpdate(B, i, i - 1, one);
    OnesStep(B, SetEntryAsWritten(B, i, i - 1, one), n, one, i);
  }

  /** The entry (x, y) after the second loop's steps for rows 0 .. i - 1. */
  function LastEntry(one: int, Q: seq<int>, n: nat, i: nat, x: nat, y: nat): int
    requires x < n <= |Q|
  {
    if x < i && y == n - 1 then Q[x] else if y + 1 == x then one else 0
  }

  /** The matrix after the second loop's steps for rows 0 .. i - 1. */
  ghost predicate LastBelow(B: Csr, one: int, Q: seq<int>, n: nat, i: nat)
    requires |Q| == n
  {
    && Valid(B) && ZeroFree(B) && B.rownb == n && B.colnb == n
    && forall x: nat, y: nat :: x < n ==> Entry(B, x, y) == LastEntry(one, Q, n, i, x, y)
  }

  /** One step of the second loop, `setEntry(i, n - 1, -P[i])`. */
  lemma LastStep(B: Csr, C: Csr, one: int, Q: seq<int>, n: nat, i: nat)
    requires |Q| == n && LastBelow(B, one, Q, n, i) && i < n && Updated(B, C, i, n - 1, Q[i])
    ensures LastBelow(C, one, Q, n, i + 1)
  {
  }

  /** The second loop's body applied: `setEntry(i, n - 1, Q[i])` on the matrix so far. */
  lemma LastSet(B: Csr, one: int, Q: seq<int>, n: nat, i: nat)
    requires |Q| == n && i < n && Valid(B) && B.rownb == n && B.colnb == n && LastBelow(B, one, Q, n, i)
    ensures LastBelow(SetEntryAsWritten(B, i, n - 1, Q[i]), one, Q, n, i + 1)
  {
    var C := SetEntryAsWritten(B, i, n - 1, Q[i]);
    LastColumnNoNeighbour(B, i);
    SetEntryAsWrittenIsUpdate(B, i, n - 1, Q[i]);
    LastStep(B, C, one, Q, n, i);
  }

  /**
   * `Companion(F, P)`: the (|P| - 1) x (|P| - 1) matrix built by two loops
   * of `setEntry`, ones at (i, i - 1) for 1 <= i < n, then neg(P[i]) at
   * (i, n - 1) for 0 <= i < n. The source computes n as `P.size() - 1` in
   * size_t, so an empty P would wrap; it is excluded.
   *
   * The calls are `setEntry` as written, whose zero branch is the
   * unchecked `clearEntry`; none of them meets a column above the one it
   * clears: row i holds nothing before its one is written, and no column
   * lies above n - 1. Every entry is the companion entry, the matrix stays
   * valid, a zero coefficient leaves nothing stored, and nothing but the
   * nonzero companion entries is stored.
   */
  method FromPolynomial(one: int, neg: int -> int, P: seq<int>) returns (B: Csr)
    requires |P| >= 1
    ensures Valid(B) && ZeroFree(B) && B.rownb == |P| - 1 && B.colnb == |P| - 1
    ensures forall x: nat, y: nat :: x < |P| - 1 ==> Entry(B, x, y) == CompanionEntry(one, neg, P, x, y)
  {
    var n := |P| - 1;
    B := Empty(n, n);
    var i := 1;
    while i < n
      invariant 1 <= i && (n >= 1 ==> i <= n)
      invariant OnesBelow(B, n, one, i)
    {
      OnesSet(B, n, one, i);
      B := SetEntryAsWritten(B, i, i - 1, one);
      i := i + 1;
    }
    ghost var Q := seq(n, k requires 0 <= k < n => neg(P[k]));
    i := 0;
    while i < n
      invariant i <= n
      invariant LastBelow(B, one, Q, n, i)
    {
      LastSet(B, one, Q, n, i);
      B := SetEntryAsWritten(B, i, n - 1, neg(P[i]));
      i := i + 1;
    }
  }

  /** `Companion(F)`: the zero matrix of the `(F)` CSR constructor. */
  function Zero(): (B: Csr)
    ensures Valid(B) && B.rownb == 0 && B.colnb == 0 && B.nbnz == 0 && B.start == [0]
  {
    Empty(0, 0)
  }
}
