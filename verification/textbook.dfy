/**
 * The textbook Smith form over the principal ideal ring Z/pZ
 * (`PIRModular<int32>`): dense elimination with gcd-based row and column
 * operations, restricted at step n to the trailing block of rows and
 * columns n and beyond.
 *
 * Ring addition and subtraction (`addin`, `subin`) are the usual ones
 * modulo p; `areAssociates` comes from the field and is a parameter here.
 */
module TextbookSmith {
  import opened Util
  import opened PirModular
  import opened SmithMatrix

  // ---------------------------------------------------------------------
  // swapRows, swapCols
  // ---------------------------------------------------------------------

  /** The loop of `swapRows` from column k on: at each column, (a, k) takes b's value and (b, k) a's. */
  function SwapRowsFrom(A: Mat, a: nat, b: nat, k: nat): (B: Mat)
    requires Shape(A) && a < A.rows && b < A.rows
    ensures Shape(B) && B.rows == A.rows && B.cols == A.cols
    ensures forall x, y :: 0 <= x < A.rows && 0 <= y < A.cols ==>
      Get(B, x, y) == if y >= k && x == b then Get(A, a, y) else if y >= k && x == a then Get(A, b, y) else Get(A, x, y)
    decreases A.cols - k
  {
    if k >= A.cols then A
    else SwapRowsFrom(Set(Set(A, a, k, Get(A, b, k)), b, k, Get(A, a, k)), a, b, k + 1)
  }

  /** `swapRows(A, n, a, b)`: rows a and b exchange their entries in columns n and beyond. */
  function SwapRows(A: Mat, n: nat, a: nat, b: nat): (B: Mat)
    requires Shape(A) && a < A.rows && b < A.rows
    ensures Shape(B) && B.rows == A.rows && B.cols == A.cols
  {
    SwapRowsFrom(A, a, b, n)
  }

  /** The loop of `swapCols` from row k on. */
  function SwapColsFrom(A: Mat, a: nat, b: nat, k: nat): (B: Mat)
    requires Shape(A) && a < A.cols && b < A.cols
    ensures Shape(B) && B.rows == A.rows && B.cols == A.cols
    ensures forall x, y :: 0 <= x < A.rows && 0 <= y < A.cols ==>
      Get(B, x, y) == if x >= k && y == b then Get(A, x, a) else if x >= k && y == a then Get(A, x, b) else Get(A, x, y)
    decreases A.rows - k
  {
    if k >= A.rows then A
    else SwapColsFrom(Set(Set(A, k, a, Get(A, k, b)), k, b, Get(A, k, a)), a, b, k + 1)
  }

  /** `swapCols(A, n, a, b)`: columns a and b exchange their entries in rows n and beyond. */
  function SwapCols(A: Mat, n: nat, a: nat, b: nat): (B: Mat)
    requires Shape(A) && a < A.cols && b < A.cols
    ensures Shape(B) && B.rows == A.rows && B.cols == A.cols
  {
    SwapColsFrom(A, a, b, n)
  }

  /** swapRows exchanges rows a and b in columns n and beyond and touches nothing else; doing it twice restores A. */
  lemma SwapRowsExchanges(A: Mat, n: nat, a: nat, b: nat)
    requires Shape(A) && a < A.rows && b < A.rows
    ensures forall y :: n <= y < A.cols ==> Get(SwapRows(A, n, a, b), a, y) == Get(A, b, y) && Get(SwapRows(A, n, a, b), b, y) == Get(A, a, y)
    ensures forall x, y :: 0 <= x < A.rows && 0 <= y < A.cols && ((x != a && x != b) || y < n) ==> Get(SwapRows(A, n, a, b), x, y) == Get(A, x, y)
    ensures SwapRows(SwapRows(A, n, a, b), n, a, b) == A
  {
    MatExt(SwapRows(SwapRows(A, n, a, b), n, a, b), A);
  }

  /** swapCols exchanges columns a and b in rows n and beyond and touches nothing else; doing it twice restores A. */
  lemma SwapColsExchanges(A: Mat, n: nat, a: nat, b: nat)
    requires Shape(A) && a < A.cols && b < A.cols
    ensures forall x :: n <= x < A.rows ==> Get(SwapCols(A, n, a, b), x, a) == Get(A, x, b) && Get(SwapCols(A, n, a, b), x, b) == Get(A, x, a)
    ensures forall x, y :: 0 <= x < A.rows && 0 <= y < A.cols && ((y != a && y != b) || x < n) ==> Get(SwapCols(A, n, a, b), x, y) == Get(A, x, y)
    ensures SwapCols(SwapCols(A, n, a, b), n, a, b) == A
  {
    MatExt(SwapCols(SwapCols(A, n, a, b), n, a, b), A);
  }

  // ---------------------------------------------------------------------
  // findPivot
  // ---------------------------------------------------------------------

  /** Every trailing-block entry before (x, y) in row-major order is zero. */
  predicate ZeroBefore(A: Mat, n: nat, x: nat, y: nat)
    requires Shape(A)
  {
    forall i, j :: n <= i < A.rows && n <= j < A.cols && (i < x || (i == x && j < y)) ==> Get(A, i, j) == 0
  }

  /** The whole trailing block of rows and columns n and beyond is zero. */
  predicate TrailingZero(A: Mat, n: nat)
    requires Shape(A)
  {
    forall i, j :: n <= i < A.rows && n <= j < A.cols ==> Get(A, i, j) == 0
  }

  datatype Pivot = NoPivot | PivotAt(i: nat, j: nat)

  /** The scan of `findPivot` from (i, j) on, row by row, each row from column n. */
  function FirstNonzero(A: Mat, n: nat, i: nat, j: nat): (r: Pivot)
    requires Shape(A) && n <= i && n <= j && ZeroBefore(A, n, i, j)
    ensures r.NoPivot? ==> TrailingZero(A, n)
    ensures r.PivotAt? ==> n <= r.i < A.rows && n <= r.j < A.cols && Get(A, r.i, r.j) != 0 && ZeroBefore(A, n, r.i, r.j)
    decreases A.rows - i, A.cols - j
  {
    if i >= A.rows then NoPivot
    else if j >= A.cols then FirstNonzero(A, n, i + 1, n)
    else if Get(A, i, j) != 0 then PivotAt(i, j)
    else FirstNonzero(A, n, i, j + 1)
  }

  /**
   * `findPivot(A, n)`: the first non-zero entry of the trailing block in
   * row-major order is brought to (n, n) by a row swap and a column swap,
   * each done only when needed.
   */
  function FindPivot(A: Mat, n: nat): (r: (bool, Mat))
    requires Shape(A)
    ensures Shape(r.1) && Frame(A, r.1, n)
    ensures r.0 <==> !TrailingZero(A, n)
    ensures !r.0 ==> r.1 == A
    ensures r.0 ==> n < A.rows && n < A.cols && Get(r.1, n, n) != 0
  {
    match FirstNonzero(A, n, n, n)
    case NoPivot => (false, A)
    case PivotAt(i, j) =>
      var A1 := if i != n then SwapRows(A, n, n, i) else A;
      SwapRowsExchanges(A, n, n, i);
      var A2 := if j != n then SwapCols(A1, n, n, j) else A1;
      SwapColsExchanges(A1, n, n, j);
      (true, A2)
  }

  /** The entry brought to (n, n) is the first non-zero one of the trailing block in row-major order. */
  lemma FindPivotFirst(A: Mat, n: nat)
    requires Shape(A) && !TrailingZero(A, n)
    ensures FirstNonzero(A, n, n, n).PivotAt?
    ensures var p := FirstNonzero(A, n, n, n);
      ZeroBefore(A, n, p.i, p.j) && Get(FindPivot(A, n).1, n, n) == Get(A, p.i, p.j)
  {
    var p := FirstNonzero(A, n, n, n);
    SwapRowsExchanges(A, n, n, p.i);
    var A1 := if p.i != n then SwapRows(A, n, n, p.i) else A;
    SwapColsExchanges(A1, n, n, p.j);
  }

  /** findPivot only permutes entries, so they stay ring elements. */
  lemma FindPivotElements(F: PIR, A: Mat, n: nat)
    requires Shape(A) && Elements(F, A)
    ensures Elements(F, FindPivot(A, n).1)
  {
    var p := FirstNonzero(A, n, n, n);
    if p.PivotAt? {
      SwapRowsExchanges(A, n, n, p.i);
      var A1 := if p.i != n then SwapRows(A, n, n, p.i) else A;
      SwapColsExchanges(A1, n, n, p.j);
    }
  }

  // ---------------------------------------------------------------------
  // dxgcd and the ring operations
  // ---------------------------------------------------------------------

  /** Cofactors (s, t, u, v) for combining a and b. */
  datatype Cofactors = Cofactors(s: int, t: int, u: int, v: int)

  /**
   * `dxgcd`: for a == b the fixed cofactors s = u = v = 1 and t = 0 (which
   * stop the elimination loops from cycling); otherwise the ring's dxgcd
   * with u = a / g and v = b / g.
   */
  function Dxgcd(F: PIR, a: int, b: int): (c: Cofactors)
    requires PirModular.Valid(F) && IsElement(F, a) && IsElement(F, b)
    ensures a == b ==> c == Cofactors(1, 0, 1, 1)
    ensures a * c.v == b * c.u
    ensures a != b ==> (c.s * a + c.t * b) % F.p == Gcd(a, b) % F.p
  {
    if a == b then Cofactors(1, 0, 1, 1)
    else
      var r := RingDxgcd(F, a, b);
      CrossMul(r.a1, r.b1, r.g);
      Cofactors(r.s, r.t, r.a1, r.b1)
  }

  lemma CrossMul(a1: int, b1: int, g: int)
    ensures (a1 * g) * b1 == (b1 * g) * a1
  {
  }

  function Add(F: PIR, a: int, b: int): (r: int)
    requires F.p >= 1
    ensures IsElement(F, r)
  {
    (a + b) % F.p
  }

  function Sub(F: PIR, a: int, b: int): (r: int)
    requires F.p >= 1
    ensures IsElement(F, r)
  {
    (a - b) % F.p
  }

  // ---------------------------------------------------------------------
  // eliminateCol
  // ---------------------------------------------------------------------

  /**
   * The inner loop of `eliminateCol` from column k on: row n becomes
   * s * row n + t * row i and row i becomes v * row n - u * row i, both
   * computed from the values before the step.
   */
  function CombineRowsFrom(F: PIR, A: Mat, n: nat, i: nat, c: Cofactors, k: nat): (B: Mat)
    requires F.p >= 1 && Shape(A) && n < A.rows && i < A.rows && n != i
    ensures Shape(B) && B.rows == A.rows && B.cols == A.cols
    ensures forall x, y :: 0 <= x < A.rows && 0 <= y < A.cols && ((x != n && x != i) || y < k) ==> Get(B, x, y) == Get(A, x, y)
    ensures forall x, y :: 0 <= x < A.rows && 0 <= y < A.cols && (x == n || x == i) && y >= k ==> IsElement(F, Get(B, x, y))
    decreases A.cols - k
  {
    if k >= A.cols then A
    else
      var nj := Get(A, n, k);
      var ij := Get(A, i, k);
      var A1 := Set(A, n, k, Add(F, Mul(F, nj, c.s), Mul(F, ij, c.t)));
      var A2 := Set(A1, i, k, Sub(F, Mul(F, nj, c.v), Mul(F, ij, c.u)));
      CombineRowsFrom(F, A2, n, i, c, k + 1)
  }

  /** Entry by entry, combining rows n and i from column k on replaces them by s * row n + t * row i and v * row n - u * row i. */
  lemma {:induction false} CombineRowsAt(F: PIR, A: Mat, n: nat, i: nat, c: Cofactors, k: nat)
    requires F.p >= 1 && Shape(A) && n < A.rows && i < A.rows && n != i
    ensures forall y :: k <= y < A.cols ==>
      && Get(CombineRowsFrom(F, A, n, i, c, k), n, y) == Add(F, Mul(F, Get(A, n, y), c.s), Mul(F, Get(A, i, y), c.t))
      && Get(CombineRowsFrom(F, A, n, i, c, k), i, y) == Sub(F, Mul(F, Get(A, n, y), c.v), Mul(F, Get(A, i, y), c.u))
    decreases A.cols - k
  {
    if k < A.cols {
      var nj := Get(A, n, k);
      var ij := Get(A, i, k);
      var A1 := Set(A, n, k, Add(F, Mul(F, nj, c.s), Mul(F, ij, c.t)));
      var A2 := Set(A1, i, k, Sub(F, Mul(F, nj, c.v), Mul(F, ij, c.u)));
      CombineRowsAt(F, A2, n, i, c, k + 1);
    }
  }

  /** One combining step clears (i, n) and leaves gcd((n, n), (i, n)) at (n, n). */
  lemma CombineRowsPivot(F: PIR, A: Mat, n: nat, i: nat)
    requires PirModular.Valid(F) && Shape(A) && Elements(F, A) && n < A.rows && n < A.cols && n < i < A.rows
    requires Get(A, i, n) != 0
    ensures var B := CombineRowsFrom(F, A, n, i, Dxgcd(F, Get(A, n, n), Get(A, i, n)), n);
      Get(B, i, n) == 0 && Get(B, n, n) != 0 && Elements(F, B) && Frame(A, B, n)
  {
    var a, b := Get(A, n, n), Get(A, i, n);
    var c := Dxgcd(F, a, b);
    var B := CombineRowsFrom(F, A, n, i, c, n);
    CombineRowsAt(F, A, n, i, c, n);
    PivotStays(F.p, a, b, c.s, c.t);
    SameProduct(F, a, c.v, b, c.u);
    assert Get(B, i, n) == Sub(F, Mul(F, a, c.v), Mul(F, b, c.u));
  }

  lemma SameProduct(F: PIR, a: int, v: int, b: int, u: int)
    requires F.p >= 1 && a * v == b * u
    ensures Sub(F, Mul(F, a, v), Mul(F, b, u)) == 0
  {
  }

  lemma SmallMod(g: int, p: int)
    requires 0 <= g < p
    ensures g % p == g
  {
  }

  /** The new pivot (a s + b t) mod p is gcd(a, b) or, for a == b, a itself: non-zero when b is. */
  lemma PivotStays(p: int, a: int, b: int, s: int, t: int)
    requires 0 <= a < p && 0 < b < p
    requires a == b ==> s == 1 && t == 0
    requires a != b ==> (s * a + t * b) % p == Gcd(a, b) % p
    ensures ((a * s) % p + (b * t) % p) % p != 0
  {
    var x, y := a * s, b * t;
    if a == b {
      ResidueSumNonzero(x, y, p, a);
    } else {
      assert x + y == s * a + t * b;
      GcdPositiveBelow(a, b, p);
      ResidueSumNonzero(x, y, p, Gcd(a, b));
    }
  }

  lemma GcdPositiveBelow(a: nat, b: nat, p: int)
    requires 0 < b < p
    ensures 0 < Gcd(a, b) < p
  {
    GcdDivides(a, b);
    GcdZero(a, b);
    DividesLe(Gcd(a, b), b);
  }

  lemma ResidueSumNonzero(x: int, y: int, p: int, g: int)
    requires 0 < g < p && (x + y) % p == g % p
    ensures (x % p + y % p) % p != 0
  {
    ModAdd(x, y, p);
  }

  /** One pass of the loop of `eliminateCol` at row i: dxgcd of the pivot and (i, n), then the row combination from column n on. */
  function ColStep(F: PIR, A: Mat, n: nat, i: nat): (B: Mat)
    requires PirModular.Valid(F) && Shape(A) && Elements(F, A) && n < A.rows && n < A.cols && n < i < A.rows
    requires Get(A, i, n) != 0
    ensures Shape(B) && Elements(F, B) && Frame(A, B, n)
    ensures Get(B, i, n) == 0 && Get(B, n, n) != 0
    ensures forall x, y :: 0 <= x < A.rows && 0 <= y < A.cols && x != n && x != i ==> Get(B, x, y) == Get(A, x, y)
  {
    CombineRowsPivot(F, A, n, i);
    CombineRowsFrom(F, A, n, i, Dxgcd(F, Get(A, n, n), Get(A, i, n)), n)
  }

  /**
   * The outer loop of `eliminateCol` from row i on: a row whose entry in
   * column n is non-zero is combined with row n.
   */
  function EliminateColFrom(F: PIR, A: Mat, n: nat, i: nat): (r: (bool, Mat))
    requires PirModular.Valid(F) && Shape(A) && Elements(F, A) && n < A.rows && n < A.cols && n < i
    ensures Shape(r.1) && Elements(F, r.1) && Frame(A, r.1, n)
    decreases A.rows - i
  {
    if i >= A.rows then (false, A)
    else if Get(A, i, n) != 0 then
      var r := EliminateColFrom(F, ColStep(F, A, n, i), n, i + 1);
      (true, r.1)
    else
      EliminateColFrom(F, A, n, i + 1)
  }

  /** `eliminateCol(A, n)`: clears column n below the pivot; reports whether anything was there. */
  function EliminateCol(F: PIR, A: Mat, n: nat): (r: (bool, Mat))
    requires PirModular.Valid(F) && Shape(A) && Elements(F, A) && n < A.rows && n < A.cols
    ensures Shape(r.1) && Elements(F, r.1) && Frame(A, r.1, n)
  {
    EliminateColFrom(F, A, n, n + 1)
  }

  // ---------------------------------------------------------------------
  // eliminateRow: eliminateCol on the transpose
  // ---------------------------------------------------------------------

  /**
   * The inner loop of `eliminateRow` from row k on: column n becomes
   * s * column n + t * column i and column i becomes v * column n - u * column i.
   */
  function CombineColsFrom(F: PIR, A: Mat, n: nat, i: nat, c: Cofactors, k: nat): (B: Mat)
    requires F.p >= 1 && Shape(A) && n < A.cols && i < A.cols && n != i
    ensures Shape(B) && B.rows == A.rows && B.cols == A.cols
    ensures forall x, y :: 0 <= x < A.rows && 0 <= y < A.cols && ((y != n && y != i) || x < k) ==> Get(B, x, y) == Get(A, x, y)
    ensures forall x, y :: 0 <= x < A.rows && 0 <= y < A.cols && (y == n || y == i) && x >= k ==> IsElement(F, Get(B, x, y))
    decreases A.rows - k
  {
    if k >= A.rows then A
    else
      var jn := Get(A, k, n);
      var ji := Get(A, k, i);
      var A1 := Set(A, k, n, Add(F, Mul(F, jn, c.s), Mul(F, ji, c.t)));
      var A2 := Set(A1, k, i, Sub(F, Mul(F, jn, c.v), Mul(F, ji, c.u)));
      CombineColsFrom(F, A2, n, i, c, k + 1)
  }

  /** Entry by entry, combining columns n and i from row k on replaces them by s * column n + t * column i and v * column n - u * column i. */
  lemma {:induction false} CombineColsAt(F: PIR, A: Mat, n: nat, i: nat, c: Cofactors, k: nat)
    requires F.p >= 1 && Shape(A) && n < A.cols && i < A.cols && n != i
    ensures forall x :: k <= x < A.rows ==>
      && Get(CombineColsFrom(F, A, n, i, c, k), x, n) == Add(F, Mul(F, Get(A, x, n), c.s), Mul(F, Get(A, x, i), c.t))
      && Get(CombineColsFrom(F, A, n, i, c, k), x, i) == Sub(F, Mul(F, Get(A, x, n), c.v), Mul(F, Get(A, x, i), c.u))
    decreases A.rows - k
  {
    if k < A.rows {
      var jn := Get(A, k, n);
      var ji := Get(A, k, i);
      var A1 := Set(A, k, n, Add(F, Mul(F, jn, c.s), Mul(F, ji, c.t)));
      var A2 := Set(A1, k, i, Sub(F, Mul(F, jn, c.v), Mul(F, ji, c.u)));
      CombineColsAt(F, A2, n, i, c, k + 1);
    }
  }

  /** One combining step clears (n, i) and leaves gcd((n, n), (n, i)) at (n, n). */
  lemma CombineColsPivot(F: PIR, A: Mat, n: nat, i: nat)
    requires PirModular.Valid(F) && Shape(A) && Elements(F, A) && n < A.rows && n < A.cols && n < i < A.cols
    requires Get(A, n, i) != 0
    ensures var B := CombineColsFrom(F, A, n, i, Dxgcd(F, Get(A, n, n), Get(A, n, i)), n);
      Get(B, n, i) == 0 && Get(B, n, n) != 0 && Elements(F, B) && Frame(A, B, n)
  {
    var a, b := Get(A, n, n), Get(A, n, i);
    var c := Dxgcd(F, a, b);
    var B := CombineColsFrom(F, A, n, i, c, n);
    CombineColsAt(F, A, n, i, c, n);
    PivotStays(F.p, a, b, c.s, c.t);
    SameProduct(F, a, c.v, b, c.u);
    assert Get(B, n, i) == Sub(F, Mul(F, a, c.v), Mul(F, b, c.u));
  }

  /** One pass of the loop of `eliminateRow` at column i: dxgcd of the pivot and (n, i), then the column combination from row n on. */
  function RowStep(F: PIR, A: Mat, n: nat, i: nat): (B: Mat)
    requires PirModular.Valid(F) && Shape(A) && Elements(F, A) && n < A.rows && n < A.cols && n < i < A.cols
    requires Get(A, n, i) != 0
    ensures Shape(B) && Elements(F, B) && Frame(A, B, n)
    ensures Get(B, n, i) == 0 && Get(B, n, n) != 0
    ensures forall x, y :: 0 <= x < A.rows && 0 <= y < A.cols && y != n && y != i ==> Get(B, x, y) == Get(A, x, y)
  {
    CombineColsPivot(F, A, n, i);
    CombineColsFrom(F, A, n, i, Dxgcd(F, Get(A, n, n), Get(A, n, i)), n)
  }

  /** The outer loop of `eliminateRow` from column i on: a column whose entry in row n is non-zero is combined with column n. */
  function EliminateRowFrom(F: PIR, A: Mat, n: nat, i: nat): (r: (bool, Mat))
    requires PirModular.Valid(F) && Shape(A) && Elements(F, A) && n < A.rows && n < A.cols && n < i
    ensures Shape(r.1) && Elements(F, r.1) && Frame(A, r.1, n)
    decreases A.cols - i
  {
    if i >= A.cols then (false, A)
    else if Get(A, n, i) != 0 then
      var r := EliminateRowFrom(F, RowStep(F, A, n, i), n, i + 1);
      (true, r.1)
    else
      EliminateRowFrom(F, A, n, i + 1)
  }

  /** `eliminateRow(A, n)`: clears row n right of the pivot; reports whether anything was there. */
  function EliminateRow(F: PIR, A: Mat, n: nat): (r: (bool, Mat))
    requires PirModular.Valid(F) && Shape(A) && Elements(F, A) && n < A.rows && n < A.cols
    ensures Shape(r.1) && Elements(F, r.1) && Frame(A, r.1, n)
  {
    EliminateRowFrom(F, A, n, n + 1)
  }

  /** Combining columns n and i from row n on is combining rows n and i of the transpose from column n on. */
  lemma CombineColsTransposed(F: PIR, A: Mat, n: nat, i: nat, c: Cofactors)
    requires F.p >= 1 && Shape(A) && n < A.cols && i < A.cols && n != i
    ensures Transpose(CombineColsFrom(F, A, n, i, c, n)) == CombineRowsFrom(F, Transpose(A), n, i, c, n)
  {
    CombineColsAt(F, A, n, i, c, n);
    CombineRowsAt(F, Transpose(A), n, i, c, n);
    MatExt(Transpose(CombineColsFrom(F, A, n, i, c, n)), CombineRowsFrom(F, Transpose(A), n, i, c, n));
  }

  // ---------------------------------------------------------------------
  // fixDiagonal
  // ---------------------------------------------------------------------

  /** The loop of `fixDiagonal` from index i on: stop at a zero d_(i+1), else copy d_(i+1) below-left of it when d_i is unfit. */
  function FixFrom(F: PIR, A: Mat, assoc: (int, int) -> bool, i: nat, fixed: bool): (r: (bool, Mat))
    requires PirModular.Valid(F) && Shape(A) && Elements(F, A)
    ensures Shape(r.1) && Elements(F, r.1) && r.1.rows == A.rows && r.1.cols == A.cols
    ensures forall x, y :: 0 <= x < A.rows && 0 <= y < A.cols && (x != y + 1 || x >= A.cols) ==> Get(r.1, x, y) == Get(A, x, y)
    ensures forall x, y :: 0 <= y && x == y + 1 && x < A.rows && x < A.cols ==> Get(r.1, x, y) == Get(A, x, y) || Get(r.1, x, y) == Get(A, x, x)
    decreases Dim(A) - i
  {
    if i + 1 >= Dim(A) then (fixed, A)
    else
      var d1 := Get(A, i, i);
      var d2 := Get(A, i + 1, i + 1);
      if d2 != 0 then
        var g := RingGcd(F, d1, d2);
        if !assoc(g, d1) then
          FixFrom(F, Set(A, i + 1, i, d2), assoc, i + 1, true)
        else
          FixFrom(F, A, assoc, i + 1, fixed)
      else
        (fixed, A)
  }

  /**
   * `fixDiagonal(A)`: the loop over i < dim - 1. With min(rows, cols) = 0
   * the source's unsigned `dim - 1` wraps around and the loop reads out of
   * range, so dim >= 1 is required.
   */
  function FixDiagonal(F: PIR, A: Mat, assoc: (int, int) -> bool): (r: (bool, Mat))
    requires PirModular.Valid(F) && Shape(A) && Elements(F, A) && Dim(A) >= 1
    ensures Shape(r.1) && Elements(F, r.1) && r.1.rows == A.rows && r.1.cols == A.cols
    ensures Diag(r.1) == Diag(A)
    ensures forall x, y :: 0 <= x < A.rows && 0 <= y < A.cols && (x != y + 1 || x >= A.cols) ==> Get(r.1, x, y) == Get(A, x, y)
    ensures forall x, y :: 0 <= y && x == y + 1 && x < A.rows && x < A.cols ==> Get(r.1, x, y) == Get(A, x, y) || Get(r.1, x, y) == Get(A, x, x)
  {
    FixFrom(F, A, assoc, 0, false)
  }

  // ---------------------------------------------------------------------
  // solve
  // ---------------------------------------------------------------------

}
