/**
 * Dense matrices for the textbook Smith form: entries stored row by row,
 * read and written one at a time (`getEntry`, `setEntry` of the dense
 * matrix), with the agreement and transposition notions the elimination
 * proofs use.
 */
module SmithMatrix {
  import opened Util
  import opened PirModular

  /** A dense rows x cols matrix, stored row by row. */
  datatype Mat = Mat(rows: nat, cols: nat, e: seq<seq<int>>)

  predicate Shape(A: Mat)
  {
    |A.e| == A.rows && forall i :: 0 <= i < A.rows ==> |A.e[i]| == A.cols
  }

  function Get(A: Mat, i: nat, j: nat): int
    requires Shape(A) && i < A.rows && j < A.cols
  {
    A.e[i][j]
  }

  function Set(A: Mat, i: nat, j: nat, v: int): (B: Mat)
    requires Shape(A) && i < A.rows && j < A.cols
    ensures Shape(B) && B.rows == A.rows && B.cols == A.cols
    ensures Get(B, i, j) == v
    ensures forall x, y :: 0 <= x < A.rows && 0 <= y < A.cols && (x != i || y != j) ==> Get(B, x, y) == Get(A, x, y)
  {
    A.(e := A.e[i := A.e[i][j := v]])
  }

  /** Every entry is a ring element, in [0, p). */
  predicate Elements(F: PIR, A: Mat)
    requires Shape(A)
  {
    forall x, y :: 0 <= x < A.rows && 0 <= y < A.cols ==> IsElement(F, Get(A, x, y))
  }

  /** Two matrices of the same shape with the same entries are equal. */
  lemma MatExt(A: Mat, B: Mat)
    requires Shape(A) && Shape(B) && A.rows == B.rows && A.cols == B.cols
    requires forall x, y :: 0 <= x < A.rows && 0 <= y < A.cols ==> Get(A, x, y) == Get(B, x, y)
    ensures A == B
  {
    forall x | 0 <= x < A.rows
      ensures A.e[x] == B.e[x]
    {
      assert forall y :: 0 <= y < A.cols ==> A.e[x][y] == Get(A, x, y);
    }
  }

  /** B agrees with A outside the trailing block of rows and columns n and beyond. */
  predicate Frame(A: Mat, B: Mat, n: nat)
    requires Shape(A) && Shape(B)
  {
    && B.rows == A.rows && B.cols == A.cols
    && forall x, y :: 0 <= x < A.rows && 0 <= y < A.cols && (x < n || y < n) ==> Get(B, x, y) == Get(A, x, y)
  }

  /** Frame composes. */
  lemma FrameTrans(A: Mat, B: Mat, C: Mat, n: nat)
    requires Shape(A) && Shape(B) && Shape(C) && Frame(A, B, n) && Frame(B, C, n)
    ensures Frame(A, C, n)
  {
  }

  function Transpose(A: Mat): (T: Mat)
    requires Shape(A)
    ensures Shape(T) && T.rows == A.cols && T.cols == A.rows
    ensures forall x, y :: 0 <= x < T.rows && 0 <= y < T.cols ==> Get(T, x, y) == Get(A, y, x)
  {
    Mat(A.cols, A.rows, seq(A.cols, j requires 0 <= j < A.cols => seq(A.rows, i requires 0 <= i < A.rows && Shape(A) => A.e[i][j])))
  }

  lemma TransposeTwice(A: Mat)
    requires Shape(A)
    ensures Transpose(Transpose(A)) == A
  {
    MatExt(Transpose(Transpose(A)), A);
  }

  function Dim(A: Mat): nat
  {
    Min(A.rows, A.cols)
  }

  /** The diagonal d_0, ..., d_(dim-1). */
  function Diag(A: Mat): (d: seq<int>)
    requires Shape(A)
    ensures |d| == Dim(A)
    ensures forall k :: 0 <= k < |d| ==> d[k] == Get(A, k, k)
  {
    seq(Dim(A), k requires 0 <= k < Dim(A) && Shape(A) => A.e[k][k])
  }
}
