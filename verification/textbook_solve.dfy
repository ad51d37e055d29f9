/**
 * What the textbook Smith form computes: the elimination loops clear
 * their row or column, fixDiagonal reports exactly the unfit diagonal
 * entries, and solve ends with a diagonal whose zeros come last and whose
 * non-zero entries form a chain of divisors up to associates.
 */
module TextbookSolve {
  import opened Util
  import PirModular
  import opened SmithMatrix
  import opened TextbookSmith

  type PIR = PirModular.PIR

  /** From row i on, eliminateCol reports a change exactly when column n has a non-zero entry there, and changes nothing otherwise. */
  lemma {:induction false} EliminateColFromReports(F: PIR, A: Mat, n: nat, i: nat)
    requires PirModular.Valid(F) && Shape(A) && Elements(F, A) && n < A.rows && n < A.cols && n < i
    ensures var r := EliminateColFrom(F, A, n, i);
      && (r.0 <==> exists x :: i <= x < A.rows && Get(A, x, n) != 0)
      && (!r.0 ==> r.1 == A)
    decreases A.rows - i
  {
    if i < A.rows && Get(A, i, n) == 0 {
      EliminateColFromReports(F, A, n, i + 1);
    }
  }

  /** From row i on, eliminateCol zeroes column n. */
  lemma {:induction false} EliminateColFromZeroes(F: PIR, A: Mat, n: nat, i: nat)
    requires PirModular.Valid(F) && Shape(A) && Elements(F, A) && n < A.rows && n < A.cols && n < i
    ensures forall x :: i <= x < A.rows ==> Get(EliminateColFrom(F, A, n, i).1, x, n) == 0
    decreases A.rows - i
  {
    if i < A.rows {
      var A1 := if Get(A, i, n) != 0 then ColStep(F, A, n, i) else A;
      var R := EliminateColFrom(F, A1, n, i + 1).1;
      assert EliminateColFrom(F, A, n, i).1 == R;
      assert Get(A1, i, n) == 0;
      EliminateColFromZeroes(F, A1, n, i + 1);
      EliminateColFromKeeps(F, A1, n, i + 1, i);
      forall x | i <= x < A.rows
        ensures Get(R, x, n) == 0
      {
      }
    }
  }

  /** eliminateCol from row i on keeps entry x of column n when x lies between the pivot and i. */
  lemma {:induction false} EliminateColFromKeeps(F: PIR, A: Mat, n: nat, i: nat, x: nat)
    requires PirModular.Valid(F) && Shape(A) && Elements(F, A) && n < A.rows && n < A.cols && n < x < i && x < A.rows
    ensures Get(EliminateColFrom(F, A, n, i).1, x, n) == Get(A, x, n)
    decreases A.rows - i
  {
    if i < A.rows {
      if Get(A, i, n) != 0 {
        var B := ColStep(F, A, n, i);
        assert Get(B, x, n) == Get(A, x, n);
        EliminateColFromKeeps(F, B, n, i + 1, x);
      } else {
        EliminateColFromKeeps(F, A, n, i + 1, x);
      }
    }
  }


  /** eliminateCol keeps a non-zero pivot non-zero, and leaves a non-zero one whenever it reports a change. */
  lemma {:induction false} EliminateColFromPivot(F: PIR, A: Mat, n: nat, i: nat)
    requires PirModular.Valid(F) && Shape(A) && Elements(F, A) && n < A.rows && n < A.cols && n < i
    ensures var r := EliminateColFrom(F, A, n, i);
      Get(A, n, n) != 0 || r.0 ==> Get(r.1, n, n) != 0
    decreases A.rows - i
  {
    if i < A.rows {
      if Get(A, i, n) != 0 {
        var A1 := ColStep(F, A, n, i);
        EliminateColFromPivot(F, A1, n, i + 1);
      } else {
        EliminateColFromPivot(F, A, n, i + 1);
      }
    }
  }

  /**
   * eliminateCol reports a change exactly when column n had a non-zero
   * entry below the pivot, changes nothing otherwise, leaves column n zero
   * below the pivot, and keeps a non-zero pivot non-zero.
   */
  lemma EliminateColClears(F: PIR, A: Mat, n: nat)
    requires PirModular.Valid(F) && Shape(A) && Elements(F, A) && n < A.rows && n < A.cols
    ensures EliminateCol(F, A, n).0 <==> exists x :: n < x < A.rows && Get(A, x, n) != 0
    ensures !EliminateCol(F, A, n).0 ==> EliminateCol(F, A, n).1 == A
    ensures forall x :: n < x < A.rows ==> Get(EliminateCol(F, A, n).1, x, n) == 0
    ensures Get(A, n, n) != 0 || EliminateCol(F, A, n).0 ==> Get(EliminateCol(F, A, n).1, n, n) != 0
  {
    EliminateColFromReports(F, A, n, n + 1);
    EliminateColFromZeroes(F, A, n, n + 1);
    EliminateColFromPivot(F, A, n, n + 1);
  }

  /** From column i on, eliminateRow reports a change exactly when row n has a non-zero entry there, and changes nothing otherwise. */
  lemma {:induction false} EliminateRowFromReports(F: PIR, A: Mat, n: nat, i: nat)
    requires PirModular.Valid(F) && Shape(A) && Elements(F, A) && n < A.rows && n < A.cols && n < i
    ensures var r := EliminateRowFrom(F, A, n, i);
      && (r.0 <==> exists y :: i <= y < A.cols && Get(A, n, y) != 0)
      && (!r.0 ==> r.1 == A)
    decreases A.cols - i
  {
    if i < A.cols && Get(A, n, i) == 0 {
      EliminateRowFromReports(F, A, n, i + 1);
    }
  }

  /** From column i on, eliminateRow zeroes row n. */
  lemma {:induction false} EliminateRowFromZeroes(F: PIR, A: Mat, n: nat, i: nat)
    requires PirModular.Valid(F) && Shape(A) && Elements(F, A) && n < A.rows && n < A.cols && n < i
    ensures forall y :: i <= y < A.cols ==> Get(EliminateRowFrom(F, A, n, i).1, n, y) == 0
    decreases A.cols - i
  {
    if i < A.cols {
      var A1 := if Get(A, n, i) != 0 then RowStep(F, A, n, i) else A;
      var R := EliminateRowFrom(F, A1, n, i + 1).1;
      assert EliminateRowFrom(F, A, n, i).1 == R;
      assert Get(A1, n, i) == 0;
      EliminateRowFromZeroes(F, A1, n, i + 1);
      EliminateRowFromKeeps(F, A1, n, i + 1, i);
      forall y | i <= y < A.cols
        ensures Get(R, n, y) == 0
      {
      }
    }
  }

  /** eliminateRow from column i on keeps entry y of row n when y lies between the pivot and i. */
  lemma {:induction false} EliminateRowFromKeeps(F: PIR, A: Mat, n: nat, i: nat, y: nat)
    requires PirModular.Valid(F) && Shape(A) && Elements(F, A) && n < A.rows && n < A.cols && n < y < i && y < A.cols
    ensures Get(EliminateRowFrom(F, A, n, i).1, n, y) == Get(A, n, y)
    decreases A.cols - i
  {
    if i < A.cols {
      if Get(A, n, i) != 0 {
        var B := RowStep(F, A, n, i);
        assert Get(B, n, y) == Get(A, n, y);
        EliminateRowFromKeeps(F, B, n, i + 1, y);
      } else {
        EliminateRowFromKeeps(F, A, n, i + 1, y);
      }
    }
  }


  /** eliminateRow keeps a non-zero pivot non-zero, and leaves a non-zero one whenever it reports a change. */
  lemma {:induction false} EliminateRowFromPivot(F: PIR, A: Mat, n: nat, i: nat)
    requires PirModular.Valid(F) && Shape(A) && Elements(F, A) && n < A.rows && n < A.cols && n < i
    ensures var r := EliminateRowFrom(F, A, n, i);
      Get(A, n, n) != 0 || r.0 ==> Get(r.1, n, n) != 0
    decreases A.cols - i
  {
    if i < A.cols {
      if Get(A, n, i) != 0 {
        var A1 := RowStep(F, A, n, i);
        EliminateRowFromPivot(F, A1, n, i + 1);
      } else {
        EliminateRowFromPivot(F, A, n, i + 1);
      }
    }
  }

  /**
   * eliminateRow reports a change exactly when row n had a non-zero entry
   * right of the pivot, changes nothing otherwise, leaves row n zero right
   * of the pivot, and keeps a non-zero pivot non-zero.
   */
  lemma EliminateRowClears(F: PIR, A: Mat, n: nat)
    requires PirModular.Valid(F) && Shape(A) && Elements(F, A) && n < A.rows && n < A.cols
    ensures EliminateRow(F, A, n).0 <==> exists y :: n < y < A.cols && Get(A, n, y) != 0
    ensures !EliminateRow(F, A, n).0 ==> EliminateRow(F, A, n).1 == A
    ensures forall y :: n < y < A.cols ==> Get(EliminateRow(F, A, n).1, n, y) == 0
    ensures Get(A, n, n) != 0 || EliminateRow(F, A, n).0 ==> Get(EliminateRow(F, A, n).1, n, n) != 0
  {
    EliminateRowFromReports(F, A, n, n + 1);
    EliminateRowFromZeroes(F, A, n, n + 1);
    EliminateRowFromPivot(F, A, n, n + 1);
  }

  /** The diagonal entries d_lo, ..., d_hi are all non-zero. */
  predicate NonzeroFrom(d: seq<int>, lo: nat, hi: nat)
    requires hi < |d|
  {
    forall l :: lo <= l <= hi ==> d[l] != 0
  }

  predicate NonNegative(d: seq<int>)
  {
    forall k :: 0 <= k < |d| ==> d[k] >= 0
  }

  /** gcd(d_k, d_(k+1)) is not associate to d_k, so d_k does not divide d_(k+1) in the ring. */
  predicate Unfit(assoc: (int, int) -> bool, d: seq<int>, k: nat)
    requires NonNegative(d) && k + 1 < |d|
  {
    !assoc(Gcd(d[k], d[k + 1]), d[k])
  }

  /** Some d_k with k >= i is unfit for d_(k+1), and d_(i+1), ..., d_(k+1) are all non-zero. */
  predicate UnfitReached(assoc: (int, int) -> bool, d: seq<int>, i: nat)
    requires NonNegative(d)
  {
    exists k: nat :: i <= k && k + 1 < |d| && NonzeroFrom(d, i + 1, k + 1) && Unfit(assoc, d, k)
  }

  /** One step of the scan: an unfit d_k is reached from i exactly when d_(i+1) is non-zero and d_i is unfit or one is reached from i + 1. */
  lemma UnfitReachedStep(assoc: (int, int) -> bool, d: seq<int>, i: nat)
    requires NonNegative(d) && i + 1 < |d|
    ensures UnfitReached(assoc, d, i) <==> d[i + 1] != 0 && (Unfit(assoc, d, i) || UnfitReached(assoc, d, i + 1))
  {
    if UnfitReached(assoc, d, i) {
      var k: nat :| i <= k && k + 1 < |d| && NonzeroFrom(d, i + 1, k + 1) && Unfit(assoc, d, k);
      assert d[i + 1] != 0;
      if k > i {
        assert NonzeroFrom(d, i + 2, k + 1);
      }
    }
    if d[i + 1] != 0 {
      if Unfit(assoc, d, i) {
        assert NonzeroFrom(d, i + 1, i + 1);
      } else if UnfitReached(assoc, d, i + 1) {
        var k: nat :| i + 1 <= k && k + 1 < |d| && NonzeroFrom(d, i + 2, k + 1) && Unfit(assoc, d, k);
        assert NonzeroFrom(d, i + 1, k + 1);
      }
    }
  }

  /** The diagonal of a matrix of ring elements is non-negative. */
  lemma DiagElements(F: PIR, A: Mat)
    requires Shape(A) && Elements(F, A)
    ensures NonNegative(Diag(A))
  {
  }

  /**
   * FixFrom reports true exactly when `fixed` was already set or some d_k
   * (k >= i), reached before the first zero d_l (l > i), is unfit for
   * d_(k+1); when it reports false nothing changed.
   */
  lemma {:induction false} FixFromReports(F: PIR, A: Mat, assoc: (int, int) -> bool, i: nat, fixed: bool)
    requires PirModular.Valid(F) && Shape(A) && Elements(F, A)
    ensures NonNegative(Diag(A))
    ensures FixFrom(F, A, assoc, i, fixed).0 <==> fixed || UnfitReached(assoc, Diag(A), i)
    ensures !FixFrom(F, A, assoc, i, fixed).0 ==> FixFrom(F, A, assoc, i, fixed).1 == A
    decreases Dim(A) - i
  {
    var d := Diag(A);
    DiagElements(F, A);
    if i + 1 < Dim(A) {
      UnfitReachedStep(assoc, d, i);
      if d[i + 1] != 0 {
        if Unfit(assoc, d, i) {
          var A1 := Set(A, i + 1, i, d[i + 1]);
          assert Diag(A1) == d;
          FixFromReports(F, A1, assoc, i + 1, true);
        } else {
          FixFromReports(F, A, assoc, i + 1, fixed);
        }
      }
    }
  }

  /**
   * fixDiagonal reports true exactly when some d_k, before the first zero
   * among d_1, d_2, ..., has gcd(d_k, d_(k+1)) not associate to d_k; it
   * keeps the diagonal, writes only right below it, and changes nothing
   * when it reports false.
   */
  lemma FixDiagonalReports(F: PIR, A: Mat, assoc: (int, int) -> bool)
    requires PirModular.Valid(F) && Shape(A) && Elements(F, A) && Dim(A) >= 1
    ensures NonNegative(Diag(A))
    ensures FixDiagonal(F, A, assoc).0 <==> UnfitReached(assoc, Diag(A), 0)
    ensures !FixDiagonal(F, A, assoc).0 ==> FixDiagonal(F, A, assoc).1 == A
    ensures forall x, y :: 0 <= x < A.rows && 0 <= y < A.cols && x != y + 1 ==> Get(FixDiagonal(F, A, assoc).1, x, y) == Get(A, x, y)
  {
    FixFromReports(F, A, assoc, 0, false);
  }

  /** Column n is zero below the pivot. */
  predicate ColClear(B: Mat, n: nat)
    requires Shape(B) && n < B.cols
  {
    forall x :: n < x < B.rows ==> Get(B, x, n) == 0
  }

  /** Row n is zero right of the pivot. */
  predicate RowClear(B: Mat, n: nat)
    requires Shape(B) && n < B.rows
  {
    forall y :: n < y < B.cols ==> Get(B, n, y) == 0
  }

  /** Rows and columns below n are done: zero off the diagonal, with non-zero pivots. */
  predicate Cleared(B: Mat, n: nat)
    requires Shape(B)
  {
    && n <= Dim(B)
    && (forall x, y :: 0 <= x < B.rows && 0 <= y < B.cols && x != y && (x < n || y < n) ==> Get(B, x, y) == 0)
    && (forall x :: 0 <= x < n ==> Get(B, x, x) != 0)
  }

  predicate Diagonal(B: Mat)
    requires Shape(B)
  {
    forall x, y :: 0 <= x < B.rows && 0 <= y < B.cols && x != y ==> Get(B, x, y) == 0
  }

  /** Once a diagonal entry is zero, all later ones are. */
  predicate ZerosLast(d: seq<int>)
  {
    forall k, l :: 0 <= k < l < |d| && d[k] == 0 ==> d[l] == 0
  }

  /** Clearing row and column n around a non-zero pivot, without touching the earlier rows and columns, extends the cleared part by one. */
  lemma ClearedExtend(B0: Mat, B: Mat, n: nat)
    requires Shape(B0) && Shape(B) && Cleared(B0, n) && Frame(B0, B, n) && n < Dim(B)
    requires Get(B, n, n) != 0 && ColClear(B, n) && RowClear(B, n)
    ensures Cleared(B, n + 1)
  {
  }

  /** A sweep that stops at n, with everything from n on zero, leaves a diagonal matrix whose zeros come last. */
  lemma SweepDone(B: Mat, n: nat)
    requires Shape(B) && Cleared(B, n) && (n == Dim(B) || TrailingZero(B, n))
    ensures Diagonal(B) && ZerosLast(Diag(B))
  {
    var d := Diag(B);
    forall k, l | 0 <= k < l < |d| && d[k] == 0
      ensures d[l] == 0
    {
      assert k >= n;
    }
  }

  /**
   * One pass of the `for` loop of `solve`: for n = 0, 1, ... while n < dim
   * and findPivot(B, n) finds a pivot, clear column n, then repeat
   * eliminateRow and eliminateCol while both report a change. The source's
   * inner loop has no bound; here each runs at most `fuel` rounds and `ok`
   * is false when one was cut short.
   */
  method Sweep(F: PIR, A: Mat, fuel: nat) returns (B: Mat, ok: bool)
    requires PirModular.Valid(F) && Shape(A) && Elements(F, A)
    ensures Shape(B) && Elements(F, B) && B.rows == A.rows && B.cols == A.cols
    ensures ok ==> Diagonal(B) && ZerosLast(Diag(B))
    ensures TrailingZero(A, 0) ==> ok && B == A
  {
    B := A;
    ok := true;
    var n := 0;
    while n < Dim(A)
      invariant n <= Dim(A)
      invariant Shape(B) && Elements(F, B) && B.rows == A.rows && B.cols == A.cols
      invariant Cleared(B, n)
      invariant TrailingZero(A, 0) ==> B == A && n == 0
    {
      var p := FindPivot(B, n);
      if !p.0 {
        break;
      }
      FindPivotElements(F, B, n);
      var B0 := B;
      B := p.1;
      EliminateColClears(F, B, n);
      var c := EliminateCol(F, B, n);
      FrameTrans(B0, B, c.1, n);
      B := c.1;
      var going := true;
      var k := 0;
      while going
        invariant k <= fuel
        invariant Shape(B) && Elements(F, B) && B.rows == A.rows && B.cols == A.cols
        invariant Frame(B0, B, n) && Get(B, n, n) != 0 && ColClear(B, n)
        invariant !going ==> RowClear(B, n)
        decreases fuel - k
      {
        if k == fuel {
          ok := false;
          return;
        }
        k := k + 1;
        EliminateRowClears(F, B, n);
        var r := EliminateRow(F, B, n);
        if !r.0 {
          going := false;
        } else {
          FrameTrans(B0, B, r.1, n);
          B := r.1;
          EliminateColClears(F, B, n);
          var c := EliminateCol(F, B, n);
          FrameTrans(B0, B, c.1, n);
          B := c.1;
          going := c.0;
        }
      }
      ClearedExtend(B0, B, n);
      n := n + 1;
    }
    SweepDone(B, n);
  }

  /** The outcome of `solve`: the diagonal written into S, or the bounded loops ran out. */
  datatype Outcome = Finished(s: seq<int>) | OutOfFuel

  /** Zeros last and no unfit d_k reached: every non-zero d_(k+1) has gcd(d_k, d_(k+1)) associate to d_k. */
  lemma ChainHolds(assoc: (int, int) -> bool, d: seq<int>)
    requires NonNegative(d) && ZerosLast(d) && !UnfitReached(assoc, d, 0)
    ensures forall k :: 0 <= k && k + 1 < |d| && d[k + 1] != 0 ==> assoc(Gcd(d[k], d[k + 1]), d[k])
  {
    forall k | 0 <= k && k + 1 < |d| && d[k + 1] != 0
      ensures assoc(Gcd(d[k], d[k + 1]), d[k])
    {
      assert NonzeroFrom(d, 1, k + 1);
      var k': nat := k;
      assert !(k' + 1 < |d| && NonzeroFrom(d, 1, k' + 1) && Unfit(assoc, d, k'));
    }
  }

  /** A zero diagonal has no non-zero d_1, so fixDiagonal finds nothing to fix. */
  lemma ZeroNotUnfit(assoc: (int, int) -> bool, d: seq<int>)
    requires NonNegative(d) && forall k :: 0 <= k < |d| ==> d[k] == 0
    ensures !UnfitReached(assoc, d, 0)
  {
  }

  /**
   * `solve(S, A)`: repeat the sweep and fixDiagonal until fixDiagonal finds
   * nothing, then copy the diagonal into the first dim entries of S. When it
   * finishes, the working matrix is diagonal, its zeros come last, every
   * non-zero d_(k+1) has gcd(d_k, d_(k+1)) associate to d_k, and S beyond
   * dim is untouched. The zero matrix finishes at once with a zero diagonal.
   */
  method Solve(F: PIR, S: seq<int>, A: Mat, assoc: (int, int) -> bool, fuel: nat) returns (r: Outcome, B: Mat)
    requires PirModular.Valid(F) && Shape(A) && Elements(F, A) && Dim(A) >= 1 && |S| >= Dim(A)
    ensures Shape(B) && Elements(F, B) && B.rows == A.rows && B.cols == A.cols
    ensures r.Finished? ==> |r.s| == |S| && Diagonal(B) && ZerosLast(Diag(B))
    ensures r.Finished? ==> forall i :: 0 <= i < |S| ==> r.s[i] == if i < Dim(A) then Get(B, i, i) else S[i]
    ensures r.Finished? ==> forall k :: 0 <= k && k + 1 < Dim(A) && r.s[k + 1] != 0 ==> r.s[k] >= 0 && assoc(Gcd(r.s[k], r.s[k + 1]), r.s[k])
    ensures TrailingZero(A, 0) && fuel >= 1 ==> B == A && r.Finished? && forall i :: 0 <= i < Dim(A) ==> r.s[i] == 0
  {
    B := A;
    var round := 0;
    var again := true;
    while again && round < fuel
      invariant Shape(B) && Elements(F, B) && B.rows == A.rows && B.cols == A.cols
      invariant !again ==> Diagonal(B) && ZerosLast(Diag(B)) && NonNegative(Diag(B)) && !UnfitReached(assoc, Diag(B), 0)
      invariant TrailingZero(A, 0) ==> B == A && (round > 0 ==> !again)
    {
      var ok;
      B, ok := Sweep(F, B, fuel);
      if !ok {
        return OutOfFuel, B;
      }
      FixDiagonalReports(F, B, assoc);
      if TrailingZero(A, 0) {
        ZeroNotUnfit(assoc, Diag(B));
      }
      var fx := FixDiagonal(F, B, assoc);
      again := fx.0;
      B := fx.1;
      round := round + 1;
    }
    if again {
      return OutOfFuel, B;
    }
    var d := Diag(B);
    ChainHolds(assoc, d);
    r := Finished(seq(|S|, i requires 0 <= i < |S| => if i < |d| then d[i] else S[i]));
  }
}
