/**
 * `gauss_rankin`, `prime_power_rankin` and `operator()` of
 * `PowerGaussDomain`: the lifting driver. The matrix is reduced modulo
 * FMOD = PRIME^e; rows are eliminated one by one with a unit pivot, and
 * whenever every remaining row is divisible by PRIME the remaining rows and
 * the modulus are divided by PRIME and the current rank is recorded. The
 * recorded ranks are the ranks modulo PRIME, PRIME^2, ..., PRIME^e, from
 * which the local Smith form is read off as (multiplicity, PRIME^i) pairs.
 */
module PowerGaussRank {
  import opened Util
  import opened SparseRows
  import opened PowerGaussPivot
  import opened PowerGaussElim

  // ---------------------------------------------------------------------
  // Normalisation of the input rows
  // ---------------------------------------------------------------------

  /**
   * `if (r < 0 || r >= MOD) r %= MOD; if (r < 0) r += MOD;` with the C++
   * remainder, which is the least non-negative residue.
   */
  function Reduce(r: int, MOD: int): (v: int)
    requires MOD > 0
    ensures v == r % MOD
  {
    ReduceIsResidue(r, MOD);
    var r1 := if r < 0 || r >= MOD then CRem(r, MOD) else r;
    if r1 < 0 then r1 + MOD else r1
  }

  lemma ReduceIsResidue(r: int, MOD: int)
    requires MOD > 0
    ensures var r1 := if r < 0 || r >= MOD then CRem(r, MOD) else r;
      (if r1 < 0 then r1 + MOD else r1) == r % MOD
  {
    if r < 0 || r >= MOD {
      CDivRem(r, MOD);
      if CRem(r, MOD) < 0 {
        ModUnique(r, MOD, CDiv(r, MOD) - 1, CRem(r, MOD) + MOD);
      } else {
        ModUnique(r, MOD, CDiv(r, MOD), CRem(r, MOD));
      }
    } else {
      ModUnique(r, MOD, 0, r);
    }
  }

  /** One row of the normalisation loop: values reduced modulo MOD, zero residues dropped. */
  function NormalizeRow(row: Row, MOD: int): (out: Row)
    requires MOD > 0
    ensures |out| <= |row|
    ensures ValuesIn(out, 1, MOD)
    ensures forall lo: nat :: ColsGe(row, lo) ==> ColsGe(out, lo)
    ensures forall n: nat :: ColsBelow(row, n) ==> ColsBelow(out, n)
    ensures Sorted(row) ==> Sorted(out) && forall j :: Get(out, j) == Get(row, j) % MOD
  {
    if |row| == 0 then []
    else
      var v := Reduce(row[0].1, MOD);
      var rest := NormalizeRow(row[1..], MOD);
      NormalizeFacts(row, MOD, v, rest);
      if v != 0 then [(row[0].0, v)] + rest else rest
  }

  lemma NormalizeFacts(row: Row, MOD: int, v: int, rest: Row)
    requires MOD > 0 && |row| > 0 && v == row[0].1 % MOD
    requires forall lo: nat :: ColsGe(row[1..], lo) ==> ColsGe(rest, lo)
    requires forall n: nat :: ColsBelow(row[1..], n) ==> ColsBelow(rest, n)
    ensures var out := if v != 0 then [(row[0].0, v)] + rest else rest;
      && (forall lo: nat :: ColsGe(row, lo) ==> ColsGe(out, lo))
      && (forall n: nat :: ColsBelow(row, n) ==> ColsBelow(out, n))
    requires Sorted(row[1..]) ==> Sorted(rest) && forall j :: Get(rest, j) == Get(row[1..], j) % MOD
    ensures Sorted(row) ==> var out := if v != 0 then [(row[0].0, v)] + rest else rest;
      Sorted(out) && forall j :: Get(out, j) == Get(row, j) % MOD
  {
    forall lo: nat | ColsGe(row, lo)
      ensures ColsGe(row[1..], lo)
    {
    }
    forall n: nat | ColsBelow(row, n)
      ensures ColsBelow(row[1..], n)
    {
    }
    if Sorted(row) {
      SortedTail(row);
      assert ColsGe(row[1..], row[0].0 + 1);
      var out := if v != 0 then [(row[0].0, v)] + rest else rest;
      assert ColsGe(rest, row[0].0 + 1);
      if v != 0 {
        SortedCons((row[0].0, v), rest);
      }
      forall j
        ensures Get(out, j) == Get(row, j) % MOD
      {
        if j == row[0].0 {
          GetBelow(row[1..], j, row[0].0 + 1);
          GetBelow(rest, j, row[0].0 + 1);
          if v != 0 {
            GetCons((row[0].0, v), rest, j);
          }
        } else if v != 0 {
          GetCons((row[0].0, v), rest, j);
        }
      }
    }
  }

  /** Increment the density of every column stored in the row. */
  function IncrementAll(D: seq<int>, row: Row): (D': seq<int>)
    requires DensityIndexes(row, D)
    ensures |D'| == |D|
    ensures forall c :: 0 <= c < |D| ==> D'[c] == D[c] + Count(row, c)
  {
    if |row| == 0 then D
    else
      var D1 := IncrementAll(D, row[1..]);
      D1[row[0].0 := D1[row[0].0] + 1]
  }

  /** The number of rows reading non-zero at column c: the true column density. */
  function RowsStoring(A: seq<Row>, c: nat): nat
  {
    if |A| == 0 then 0 else RowsStoring(A[..|A| - 1], c) + Ind(Get(A[|A| - 1], c) != 0)
  }

  /**
   * The normalisation loop of `gauss_rankin`: every row reduced modulo MOD
   * without zeros, and the density of each column counted from the kept
   * entries, which is the number of rows that read non-zero there.
   */
  method NormalizeRows(A0: seq<Row>, MOD: int, Nj: nat) returns (A: seq<Row>, D: seq<int>)
    requires MOD > 0
    requires forall i :: 0 <= i < |A0| ==> Sorted(A0[i]) && ColsBelow(A0[i], Nj)
    ensures |A| == |A0| && |D| == Nj
    ensures forall i :: 0 <= i < |A| ==> ActiveRow(A[i], 0, MOD, Nj)
    ensures forall i, j :: 0 <= i < |A| ==> Get(A[i], j) == Get(A0[i], j) % MOD
    ensures forall c :: 0 <= c < Nj ==> D[c] == RowsStoring(A, c)
  {
    A := [];
    D := seq(Nj, _ => 0);
    var jj := 0;
    while jj < |A0|
      invariant jj <= |A0| && |A| == jj && |D| == Nj
      invariant forall i :: 0 <= i < jj ==> ActiveRow(A[i], 0, MOD, Nj)
      invariant forall i, j :: 0 <= i < jj ==> Get(A[i], j) == Get(A0[i], j) % MOD
      invariant forall c :: 0 <= c < Nj ==> D[c] == RowsStoring(A, c)
    {
      var row := NormalizeRow(A0[jj], MOD);
      assert NoZeros(row);
      D := AddRowDensity(A, D, row, Nj);
      A := A + [row];
      jj := jj + 1;
    }
  }

  /** Adding one more normalised row adds its non-zero columns to the count. */
  function AddRowDensity(A: seq<Row>, D: seq<int>, row: Row, Nj: nat): (D': seq<int>)
    requires |D| == Nj && Sorted(row) && ColsBelow(row, Nj) && NoZeros(row)
    requires forall c :: 0 <= c < Nj ==> D[c] == RowsStoring(A, c)
    ensures |D'| == Nj
    ensures forall c :: 0 <= c < Nj ==> D'[c] == RowsStoring(A + [row], c)
  {
    var D1 := IncrementAll(D, row);
    assert forall c :: 0 <= c < Nj ==> D1[c] == RowsStoring(A + [row], c) by {
      forall c | 0 <= c < Nj
        ensures D1[c] == RowsStoring(A + [row], c)
      {
        CountIsPresence(row, c);
        assert (A + [row])[..|A + [row]| - 1] == A;
      }
    }
    D1
  }

  // ---------------------------------------------------------------------
  // The row order of the pivot search
  // ---------------------------------------------------------------------

  /** Row a precedes row b in `psizes`: shorter first, the lower index first among equal sizes. */
  predicate Before(A: seq<Row>, a: nat, b: nat)
    requires a < |A| && b < |A|
  {
    |A[a]| < |A[b]| || (|A[a]| == |A[b]| && a < b)
  }

  /**
   * The multimap `psizes` read in order: the indices lo..|A|-1, each once,
   * sorted by row size, ties kept in index order (each insertion goes
   * after the equal keys already present).
   */
  function SizeOrder(A: seq<Row>, lo: nat): (order: seq<nat>)
    requires lo <= |A|
    ensures |order| == |A| - lo
    ensures forall i :: 0 <= i < |order| ==> lo <= order[i] < |A|
    ensures forall p :: lo <= p < |A| ==> p in order
    ensures forall i, j :: 0 <= i < j < |order| ==> Before(A, order[i], order[j])
    decreases |A| - lo
  {
    if lo == |A| then [] else InsertBySize(A, SizeOrder(A, lo + 1), lo)
  }

  /** Insert p, smaller than every index present, in front of the first row at least as long. */
  function InsertBySize(A: seq<Row>, order: seq<nat>, p: nat): (res: seq<nat>)
    requires p < |A|
    requires forall i :: 0 <= i < |order| ==> p < order[i] < |A|
    requires forall i, j :: 0 <= i < j < |order| ==> Before(A, order[i], order[j])
    ensures |res| == |order| + 1
    ensures forall x :: x in res <==> x == p || x in order
    ensures forall i :: 0 <= i < |res| ==> p <= res[i] < |A|
    ensures forall i, j :: 0 <= i < j < |res| ==> Before(A, res[i], res[j])
  {
    if |order| == 0 || |A[p]| <= |A[order[0]]| then
      assert forall j :: 0 < j < |order| ==> Before(A, order[0], order[j]);
      [p] + order
    else
      var rest := InsertBySize(A, order[1..], p);
      forall j | 0 <= j < |rest|
        ensures Before(A, order[0], rest[j])
      {
        assert rest[j] in rest;
        if rest[j] != p {
          var x :| 0 <= x < |order[1..]| && order[1..][x] == rest[j];
          assert Before(A, order[0], order[x + 1]);
        }
      }
      [order[0]] + rest
  }

  // ---------------------------------------------------------------------
  // Division of the remaining rows by PRIME
  // ---------------------------------------------------------------------

  /** `LigneA[ii][jjj].second /= PRIME` over one row; the columns stay. */
  function DivideRow(row: Row, PRIME: int): (out: Row)
    requires PRIME > 0
    ensures |out| == |row|
    ensures forall i :: 0 <= i < |row| ==> out[i].0 == row[i].0 && out[i].1 == row[i].1 / PRIME
  {
    if |row| == 0 then [] else [(row[0].0, row[0].1 / PRIME)] + DivideRow(row[1..], PRIME)
  }

  /** Rows lo.. divided by PRIME, the rows above left alone. */
  function DivideRows(A: seq<Row>, lo: nat, PRIME: int): (B: seq<Row>)
    requires PRIME > 0
    ensures |B| == |A|
    ensures forall i :: 0 <= i < |A| ==> B[i] == if i < lo then A[i] else DivideRow(A[i], PRIME)
  {
    seq(|A|, i requires 0 <= i < |A| => if i < lo then A[i] else DivideRow(A[i], PRIME))
  }

  /** Every stored value of the row is divisible by PRIME. */
  predicate AllDivisible(PRIME: int, row: Row)
    requires PRIME != 0
  {
    forall i :: 0 <= i < |row| ==> !IsUnitAt(PRIME, row, i)
  }

  /**
   * Dividing a row with no unit modulo PRIME^(j+1) is exact: it reads
   * PRIME times less at every column and is a row modulo PRIME^j.
   */
  lemma DivideRowExact(row: Row, PRIME: int, j: nat, lo: nat, n: nat)
    requires PRIME >= 2 && AllDivisible(PRIME, row)
    requires ActiveRow(row, lo, Pow(PRIME, j + 1), n)
    ensures ActiveRow(DivideRow(row, PRIME), lo, Pow(PRIME, j), n)
    ensures forall c :: Get(DivideRow(row, PRIME), c) * PRIME == Get(row, c)
  {
    var out := DivideRow(row, PRIME);
    PowPositive(PRIME, j);
    forall i | 0 <= i < |row|
      ensures 1 <= out[i].1 < Pow(PRIME, j)
    {
      assert !IsUnitAt(PRIME, row, i);
      QuotientRange(row[i].1, PRIME, Pow(PRIME, j));
    }
    forall i | 0 <= i < |row|
      ensures MyDivides(PRIME, row[i].1)
    {
      assert !IsUnitAt(PRIME, row, i);
    }
    forall c
      ensures Get(out, c) * PRIME == Get(row, c)
    {
      DivideRowGet(row, PRIME, c);
    }
  }

  /** v in [1, P*M) with P | v gives v / P in [1, M), exactly. */
  lemma QuotientRange(v: int, P: int, M: int)
    requires P >= 2 && M > 0 && 1 <= v < P * M && MyDivides(P, v)
    ensures 1 <= v / P < M && (v / P) * P == v
  {
    var k :| v == k * P;
    ModUnique(v, P, k, 0);
    if k >= M {
      MulMonotone(P, M, k);
    }
  }

  lemma {:induction false} DivideRowGet(row: Row, PRIME: int, c: nat)
    requires PRIME > 0
    requires forall i :: 0 <= i < |row| ==> MyDivides(PRIME, row[i].1)
    ensures Get(DivideRow(row, PRIME), c) * PRIME == Get(row, c)
  {
    if |row| > 0 {
      var out := DivideRow(row, PRIME);
      assert out[1..] == DivideRow(row[1..], PRIME);
      var k :| row[0].1 == k * PRIME;
      ModUnique(row[0].1, PRIME, k, 0);
      DivideRowGet(row[1..], PRIME, c);
    }
  }

  // ---------------------------------------------------------------------
  // The pivot search of one elimination step: the `for(;;)` loop
  // ---------------------------------------------------------------------

  /** Rows lo.. are all rows of the elimination, starting at column indcol, modulo MOD. */
  predicate ActiveFrom(A: seq<Row>, lo: nat, indcol: nat, MOD: int, n: nat)
  {
    forall i :: lo <= i < |A| ==> ActiveRow(A[i], indcol, MOD, n)
  }

  /** The search gives -2 on this row: it is non-empty and PRIME divides every value. */
  predicate Stuck(PRIME: int, row: Row)
    requires PRIME != 0
  {
    |row| > 0 && AllDivisible(PRIME, row)
  }

  /** x appended n times. */
  function Repeat(x: nat, n: nat): (s: seq<nat>)
    ensures |s| == n && forall i :: 0 <= i < n ==> s[i] == x
  {
    seq(n, _ => x)
  }

  /** An active row may be searched; when it is non-empty some lifting is left and indcol is a column. */
  lemma ActiveSearchable(PRIME: int, row: Row, indcol: nat, jr: nat, D: seq<int>)
    requires PRIME >= 2 && ActiveRow(row, indcol, Pow(PRIME, jr), |D|)
    ensures DensityIndexes(row, D) && (indcol < |D| || AllDivisible(PRIME, row))
    ensures |row| > 0 ==> jr > 0 && indcol <= row[0].0 < |D|
  {
    if |row| > 0 {
      assert 1 <= row[0].1 < Pow(PRIME, jr);
    }
  }

  /**
   * One pass of `for(;;)` that finds no pivot: every row from k on is
   * stuck, so the modulus is not 1 and dividing rows k.. by PRIME is exact.
   */
  lemma DivideStep(PRIME: int, A: seq<Row>, B: seq<Row>, k: nat, indcol: nat, n: nat, jr: nat, d: nat)
    requires PRIME >= 2 && |B| == |A| && k < |B|
    requires ActiveFrom(B, k, indcol, Pow(PRIME, jr), n)
    requires forall i :: k <= i < |B| ==> Stuck(PRIME, B[i])
    requires forall i, j :: k <= i < |A| ==> Get(B[i], j) * Pow(PRIME, d) == Get(A[i], j)
    ensures jr > 0 && Pow(PRIME, jr) / PRIME == Pow(PRIME, jr - 1)
    ensures ActiveFrom(DivideRows(B, k, PRIME), k, indcol, Pow(PRIME, jr - 1), n)
    ensures Lifted(A, DivideRows(B, k, PRIME), k, PRIME, d + 1)
  {
    assert 1 <= B[k][0].1 < Pow(PRIME, jr);
    PowPositive(PRIME, jr - 1);
    ModUnique(Pow(PRIME, jr), PRIME, Pow(PRIME, jr - 1), 0);
    var B' := DivideRows(B, k, PRIME);
    forall i | k <= i < |B|
      ensures ActiveRow(B'[i], indcol, Pow(PRIME, jr - 1), n)
      ensures forall j :: Get(B'[i], j) * PRIME == Get(B[i], j)
    {
      DivideRowExact(B[i], PRIME, jr - 1, indcol, n);
    }
    forall i, j | k <= i < |A|
      ensures Get(B'[i], j) * Pow(PRIME, d + 1) == Get(A[i], j)
    {
      ScaleStep(Get(B'[i], j), Get(B[i], j), PRIME, Pow(PRIME, d));
    }
  }

  lemma ScaleStep(a: int, b: int, P: int, X: int)
    requires a * P == b
    ensures a * (P * X) == b * X
  {
  }

  /** Rows k.. of B read as those of A divided by PRIME^d. */
  ghost predicate Lifted(A: seq<Row>, B: seq<Row>, k: nat, PRIME: int, d: nat)
    requires |A| == |B|
  {
    forall i, j :: k <= i < |A| ==> Get(B[i], j) * Pow(PRIME, d) == Get(A[i], j)
  }

  /**
   * The state after the pivot search for row k: c is -1 with row p empty,
   * or the original column of a unit now at the head of row p at column
   * indcol. Rows k.. read as A's divided by PRIME^d, the pivot row with
   * columns indcol and c exchanged.
   */
  ghost predicate Pivoted(PRIME: int, A: seq<Row>, B: seq<Row>, k: nat, p: nat, c: int, indcol: nat, jr: nat, d: nat, n: nat)
    requires PRIME >= 2
  {
    && |B| == |A| && k <= p < |A|
    && ActiveFrom(B, k, indcol, Pow(PRIME, jr), n)
    && (c == -1 || c >= 0)
    && (c == -1 ==> B[p] == [])
    && (c >= 0 ==> indcol <= c < n && jr > 0 && |B[p]| > 0 && B[p][0].0 == indcol
                   && IsUnitAt(PRIME, B[p], 0) && ColsGe(B[p][1..], indcol + 1))
    && (forall i, j :: k <= i < |A| && i != p ==> Get(B[i], j) * Pow(PRIME, d) == Get(A[i], j))
    && (forall j :: Get(B[p], j) * Pow(PRIME, d) == Get(A[p], if c >= 0 then Swap(indcol, c as nat, j) else j))
  }

  /** The same-column heuristic fired on row p: the row is taken as is, with c = indcol. */
  lemma TraitPivoted(PRIME: int, A: seq<Row>, B: seq<Row>, k: nat, p: nat, indcol: nat, jr: nat, d: nat, D: seq<int>)
    requires PRIME >= 2 && |A| == |B| && k <= p < |B|
    requires ActiveFrom(B, k, indcol, Pow(PRIME, jr), |D|) && Lifted(A, B, k, PRIME, d)
    requires SameColumnReady(PRIME, B[p], indcol)
    ensures Pivoted(PRIME, A, B, k, p, indcol, indcol, jr, d, |D|)
  {
    ActiveSearchable(PRIME, B[p], indcol, jr, D);
    SortedTail(B[p]);
    forall j
      ensures Get(B[p], j) * Pow(PRIME, d) == Get(A[p], Swap(indcol, indcol, j))
    {
      assert Swap(indcol, indcol, j) == j;
    }
  }

  /**
   * The inner loop over `psizes`: `CherchePivot` on each row in size order
   * until one gives -1 or a pivot; -2 when every row from k on is stuck.
   */
  method SearchRows(PRIME: int, A: seq<Row>, B: seq<Row>, k: nat, indcol: nat, D: seq<int>, jr: nat, d: nat)
    returns (B': seq<Row>, D': seq<int>, p: nat, c: int, indcol': nat)
    requires PRIME >= 2 && |A| == |B| && k < |B|
    requires ActiveFrom(B, k, indcol, Pow(PRIME, jr), |D|) && Lifted(A, B, k, PRIME, d)
    ensures |D'| == |D| && |B'| == |B| && forall i :: 0 <= i < k ==> B'[i] == B[i]
    ensures c == -2 ==> B' == B && D' == D && forall i :: k <= i < |B| ==> Stuck(PRIME, B[i])
    ensures c != -2 ==> Pivoted(PRIME, A, B', k, p, c, indcol, jr, d, |D|)
    ensures indcol' == if c >= 0 then indcol + 1 else indcol
  {
    var order := SizeOrder(B, k);
    B', D', p, c, indcol' := B, D, k, -2, indcol;
    var x := 0;
    while x < |order|
      invariant x <= |order| && c == -2 && B' == B && D' == D && indcol' == indcol
      invariant forall y :: 0 <= y < x ==> Stuck(PRIME, B[order[y]])
    {
      p := order[x];
      ActiveSearchable(PRIME, B[p], indcol, jr, D);
      var pv := CherchePivot(PRIME, B[p], indcol, D);
      if pv.c > -2 {
        B', D', c, indcol' := TakePivot(PRIME, A, B, k, p, indcol, D, jr, d);
        return;
      }
      x := x + 1;
    }
    forall i | k <= i < |B|
      ensures Stuck(PRIME, B[i])
    {
      assert i in order;
    }
  }

  /** The end of the search at row p, where `CherchePivot` returned -1 or a pivot column. */
  method TakePivot(PRIME: int, A: seq<Row>, B: seq<Row>, k: nat, p: nat, indcol: nat, D: seq<int>, jr: nat, d: nat)
    returns (B': seq<Row>, D': seq<int>, c: int, indcol': nat)
    requires PRIME >= 2 && |A| == |B| && k <= p < |B|
    requires ActiveFrom(B, k, indcol, Pow(PRIME, jr), |D|) && Lifted(A, B, k, PRIME, d)
    requires CherchePivot(PRIME, B[p], indcol, D).c > -2
    ensures |D'| == |D| && |B'| == |B| && forall i :: 0 <= i < k ==> B'[i] == B[i]
    ensures c != -2 && Pivoted(PRIME, A, B', k, p, c, indcol, jr, d, |D|)
    ensures indcol' == if c >= 0 then indcol + 1 else indcol
  {
    ActiveSearchable(PRIME, B[p], indcol, jr, D);
    var pv := CherchePivot(PRIME, B[p], indcol, D);
    B', D', c, indcol' := B, D, pv.c, indcol;
    if c >= 0 {
      CherchePivotTransposes(PRIME, B[p], indcol, D);
      SortedTail(pv.row);
      FoundPivoted(PRIME, A, B, pv.row, k, p, c, indcol, jr, d, |D|);
      B' := B[p := pv.row];
      D' := pv.D;
      indcol' := pv.indcol;
    }
  }

  /** `CherchePivot` succeeded on row p and replaced it by its transposed form. */
  lemma FoundPivoted(PRIME: int, A: seq<Row>, B: seq<Row>, row: Row, k: nat, p: nat, c: nat, indcol: nat, jr: nat, d: nat, n: nat)
    requires PRIME >= 2 && |A| == |B| && k <= p < |B|
    requires ActiveFrom(B, k, indcol, Pow(PRIME, jr), n) && Lifted(A, B, k, PRIME, d)
    requires indcol <= c < n && |row| > 0 && row[0].0 == indcol && IsUnitAt(PRIME, row, 0)
    requires Sorted(row) && ColsGe(row, indcol) && ColsGe(row[1..], indcol + 1)
    requires ValuesIn(row, 1, Pow(PRIME, jr)) && ColsBelow(row, n)
    requires forall j :: Get(row, j) == Get(B[p], Swap(indcol, c, j))
    ensures Pivoted(PRIME, A, B[p := row], k, p, c, indcol, jr, d, n)
  {
    assert 1 <= row[0].1 < Pow(PRIME, jr);
  }

  /**
   * `SameColumnPivotingTrait` over the rows from k in size order: when it
   * fires, p is a row from k on whose head is a unit at column indcol.
   */
  method TryTrait(PRIME: int, B: seq<Row>, k: nat, indcol: nat, on: bool) returns (found: bool, p: nat)
    requires PRIME >= 2 && k <= |B|
    ensures found ==> on && k <= p < |B| && SameColumnReady(PRIME, B[p], indcol)
    ensures on && !found ==> forall i :: k <= i < |B| ==> !SameColumnReady(PRIME, B[i], indcol)
  {
    var order := SizeOrder(B, k);
    var tr := SameColumnPivotingTrait(PRIME, B, order, |B|, indcol, -2, on);
    found, p := tr.found, tr.p;
    if on && !found {
      forall i | k <= i < |B|
        ensures !SameColumnReady(PRIME, B[i], indcol)
      {
        assert i in order;
      }
    }
  }

  /**
   * The `for(;;)` loop of `gauss_rankin` for row k: try the same-column
   * heuristic, then `CherchePivot` on each row in size order; when every
   * row is stuck, divide rows k.. and the modulus by PRIME and record the
   * current rank.
   */
  method FindPivot(PRIME: int, A: seq<Row>, k: nat, indcol: nat, D: seq<int>, MOD: int, jrem: nat, ranks: seq<nat>, on: bool)
    returns (B: seq<Row>, D': seq<int>, p: nat, c: int, indcol': nat, MOD': int, jrem': nat, ranks': seq<nat>)
    requires PRIME >= 2 && k < |A| && MOD == Pow(PRIME, jrem)
    requires ActiveFrom(A, k, indcol, MOD, |D|)
    ensures |B| == |A| && |D'| == |D|
    ensures forall i :: 0 <= i < k ==> B[i] == A[i]
    ensures jrem' <= jrem && MOD' == Pow(PRIME, jrem')
    ensures ranks' == ranks + Repeat(indcol, jrem - jrem')
    ensures Pivoted(PRIME, A, B, k, p, c, indcol, jrem', jrem - jrem', |D|)
    ensures indcol' == if c >= 0 then indcol + 1 else indcol
  {
    B, D', indcol', MOD', jrem', ranks' := A, D, indcol, MOD, jrem, ranks;
    var d: nat := 0;
    while true
      invariant |B| == |A| && D' == D && indcol' == indcol
      invariant jrem' + d == jrem && MOD' == Pow(PRIME, jrem')
      invariant forall i :: 0 <= i < k ==> B[i] == A[i]
      invariant ranks' == ranks + Repeat(indcol, d)
      invariant ActiveFrom(B, k, indcol, MOD', |D|)
      invariant Lifted(A, B, k, PRIME, d)
      decreases jrem'
    {
      var found;
      found, p := TryTrait(PRIME, B, k, indcol, on);
      if found {
        c, indcol' := indcol, indcol + 1;
        TraitPivoted(PRIME, A, B, k, p, indcol, jrem', d, D);
        return;
      }
      var B1;
      B1, D', p, c, indcol' := SearchRows(PRIME, A, B, k, indcol, D, jrem', d);
      if c != -2 {
        B := B1;
        return;
      }
      DivideStep(PRIME, A, B, k, indcol, |D|, jrem', d);
      B := DivideRows(B, k, PRIME);
      MOD' := MOD' / PRIME;
      ranks' := ranks' + [indcol];
      jrem', d := jrem' - 1, d + 1;
      assert ranks' == ranks + Repeat(indcol, d);
    }
  }

  // ---------------------------------------------------------------------
  // Elimination below the pivot row, the column permutation
  // ---------------------------------------------------------------------

  /** R is T with columns kc and ip exchanged, the scaled pivot row P added, and column kc cleared. */
  ghost predicate RowReduced(MOD: int, T: Row, P: Row, kc: nat, ip: nat, R: Row)
    requires MOD > 0 && |P| > 0 && P[0].1 > 0
  {
    forall j :: Get(R, j) == if j == kc then 0
      else AddScaled(MOD, Get(T, Swap(kc, ip, j)), ElimCoefficient(MOD, Get(T, ip), P[0].1), Get(P, j))
  }

  /**
   * `for (l = k+1; l < Ni; ++l) FaireElimination(MOD, LigneA[l], LigneA[k],
   * indcol, c, col_density)`: every row below the pivot row k is reduced
   * against it; rows up to k are untouched.
   */
  method EliminateBelow(MOD: int, A: seq<Row>, k: nat, indcol: nat, c: nat, D: seq<int>) returns (B: seq<Row>, D': seq<int>)
    requires MOD > 0 && indcol >= 1 && k < |A| && indcol - 1 <= c < |D|
    requires |A[k]| > 0 && A[k][0].0 == indcol - 1
    requires ActiveFrom(A, k, indcol - 1, MOD, |D|)
    ensures |B| == |A| && |D'| == |D|
    ensures forall i :: 0 <= i <= k ==> B[i] == A[i]
    ensures ActiveFrom(B, k + 1, indcol, MOD, |D|)
    ensures forall l :: k < l < |A| ==> RowReduced(MOD, A[l], A[k], indcol - 1, c, B[l])
  {
    B, D' := A, D;
    var l := k + 1;
    while l < |A|
      invariant k + 1 <= l <= |A| && |B| == |A| && |D'| == |D|
      invariant forall i :: 0 <= i < |A| && (i <= k || l <= i) ==> B[i] == A[i]
      invariant forall i :: k < i < l ==> ActiveRow(B[i], indcol, MOD, |D|)
      invariant forall i :: k < i < l ==> RowReduced(MOD, A[i], A[k], indcol - 1, c, B[i])
    {
      var r := FaireElimination(MOD, B[l], B[k], indcol, c, D');
      B := B[l := r.row];
      D' := r.D;
      l := l + 1;
    }
  }

  /** `Q.permute(a, b)`: the column order with positions a and b exchanged. */
  function Permute(Q: seq<nat>, a: nat, b: nat): (Q': seq<nat>)
    requires a < |Q| && b < |Q|
    ensures |Q'| == |Q| && multiset(Q') == multiset(Q)
    ensures Q'[a] == Q[b] && Q'[b] == Q[a]
    ensures forall i :: 0 <= i < |Q| && i != a && i != b ==> Q'[i] == Q[i]
  {
    Q[a := Q[b]][b := Q[a]]
  }

  /** `PreserveUpperMatrixRow`: the pivot row is kept, or cleared when the upper matrix is not wanted. */
  function PreserveUpperMatrixRow(row: Row, preserve: bool): (r: Row)
    ensures preserve ==> r == row
    ensures !preserve ==> r == []
  {
    if preserve then row else []
  }

  // ---------------------------------------------------------------------
  // The last row
  // ---------------------------------------------------------------------

  lemma PowDivide(PRIME: int, j: nat)
    requires PRIME >= 2 && j > 0
    ensures Pow(PRIME, j) / PRIME == Pow(PRIME, j - 1)
  {
    ModUnique(Pow(PRIME, j), PRIME, Pow(PRIME, j - 1), 0);
  }

  /** Modulus 1 is PRIME^0 and nothing else. */
  lemma PowAboveOne(PRIME: int, j: nat)
    requires PRIME >= 2
    ensures Pow(PRIME, j) >= 1 && (Pow(PRIME, j) > 1 <==> j > 0)
  {
    if j > 0 {
      PowPositive(PRIME, j - 1);
    }
  }

  /** Where the last row ends: the search outcome, the exponent left and the ranks recorded so far. */
  datatype LastRow = LastRow(pv: Pivot, jr: nat, ranks: seq<nat>)

  /**
   * The last row: the same-column heuristic, then `CherchePivot`, then the
   * lifting loop while the row is stuck. Every rank recorded here is the
   * old indcol.
   */
  function LastRowPivot(PRIME: int, row: Row, indcol: nat, D: seq<int>, jrem: nat, ranks: seq<nat>, on: bool): (r: LastRow)
    requires PRIME >= 2 && ActiveRow(row, indcol, Pow(PRIME, jrem), |D|)
    ensures |r.pv.D| == |D| && r.jr <= jrem
    ensures r.pv.indcol == indcol || (r.pv.indcol == indcol + 1 && indcol < |D| && r.jr > 0)
    ensures r.ranks == ranks + Repeat(indcol, jrem - r.jr)
    ensures r.pv.c != -2
    ensures if r.pv.indcol == indcol then r.pv.row == [] else SameColumnReady(PRIME, r.pv.row, indcol)
  {
    var pv := StartLastRow(PRIME, row, indcol, D, jrem, on);
    if pv.c == -2 then LiftLastRow(PRIME, row, indcol, D, jrem, ranks)
    else
      assert ranks == ranks + Repeat(indcol, 0);
      LastRow(pv, jrem, ranks)
  }

  /**
   * `while (c == -2) { ranks.push_back(indcol); divide the row by PRIME;
   * MOD /= PRIME; CherchePivot(...); }`: one division, then the search.
   */
  function LiftLastRow(PRIME: int, row: Row, indcol: nat, D: seq<int>, jr: nat, ranks: seq<nat>): (r: LastRow)
    requires PRIME >= 2 && StuckRow(PRIME, row, indcol, jr, |D|)
    ensures |r.pv.D| == |D| && r.jr < jr
    ensures r.pv.indcol == indcol || (r.pv.indcol == indcol + 1 && indcol < |D| && r.jr > 0)
    ensures r.ranks == ranks + Repeat(indcol, jr - r.jr)
    ensures r.pv.c != -2
    ensures if r.pv.indcol == indcol then r.pv.row == [] else SameColumnReady(PRIME, r.pv.row, indcol)
    decreases jr, 0
  {
    var divided := DivideStuckRow(PRIME, row, indcol, D, jr);
    var r := SearchAfterLift(PRIME, divided, indcol, D, jr - 1, ranks + [indcol]);
    assert ranks + [indcol] + Repeat(indcol, jr - 1 - r.jr) == ranks + Repeat(indcol, jr - r.jr);
    r
  }

  /** The search after a division: done when the row is no longer stuck, otherwise lift again. */
  function SearchAfterLift(PRIME: int, row: Row, indcol: nat, D: seq<int>, jr: nat, ranks: seq<nat>): (r: LastRow)
    requires PRIME >= 2 && ActiveRow(row, indcol, Pow(PRIME, jr), |D|)
    ensures |r.pv.D| == |D| && r.jr <= jr
    ensures r.pv.indcol == indcol || (r.pv.indcol == indcol + 1 && indcol < |D| && r.jr > 0)
    ensures r.ranks == ranks + Repeat(indcol, jr - r.jr)
    ensures r.pv.c != -2
    ensures if r.pv.indcol == indcol then r.pv.row == [] else SameColumnReady(PRIME, r.pv.row, indcol)
    decreases jr, 1
  {
    var pv := SearchLastRow(PRIME, row, indcol, D, jr);
    if pv.c == -2 then LiftLastRow(PRIME, row, indcol, D, jr, ranks)
    else
      assert ranks + Repeat(indcol, 0) == ranks;
      LastRow(pv, jr, ranks)
  }

  /** The last row while no pivot is found: active modulo PRIME^jr and stuck. */
  predicate StuckRow(PRIME: int, row: Row, indcol: nat, jr: nat, n: nat)
    requires PRIME >= 2
  {
    ActiveRow(row, indcol, Pow(PRIME, jr), n) && Stuck(PRIME, row)
  }

  /** `c = -2; SameColumnPivoting(...); if (c == -2) CherchePivot(...)` on the last row. */
  function StartLastRow(PRIME: int, row: Row, indcol: nat, D: seq<int>, jr: nat, on: bool): (pv: Pivot)
    requires PRIME >= 2 && ActiveRow(row, indcol, Pow(PRIME, jr), |D|)
    ensures |pv.D| == |D|
    ensures pv.c == -2 ==> StuckRow(PRIME, row, indcol, jr, |D|) && pv.row == row && pv.indcol == indcol && pv.D == D
    ensures pv.indcol == indcol || (pv.indcol == indcol + 1 && indcol < |D| && jr > 0)
    ensures pv.c != -2 ==> if pv.indcol == indcol then pv.row == [] else SameColumnReady(PRIME, pv.row, indcol)
  {
    ActiveSearchable(PRIME, row, indcol, jr, D);
    var sc := SameColumnPivoting(PRIME, row, indcol, -2, on);
    if sc.1 != -2 then Pivot(row, sc.0, sc.1, D)
    else SearchLastRow(PRIME, row, indcol, D, jr)
  }

  /** A stuck row modulo PRIME^jr divides exactly into a row modulo PRIME^(jr-1). */
  function DivideStuckRow(PRIME: int, row: Row, indcol: nat, D: seq<int>, jr: nat): (out: Row)
    requires PRIME >= 2 && StuckRow(PRIME, row, indcol, jr, |D|)
    ensures jr > 0 && ActiveRow(out, indcol, Pow(PRIME, jr - 1), |D|)
    ensures forall j :: Get(out, j) * PRIME == Get(row, j)
  {
    ActiveSearchable(PRIME, row, indcol, jr, D);
    DivideRowExact(row, PRIME, jr - 1, indcol, |D|);
    DivideRow(row, PRIME)
  }

  /** `CherchePivot` on the last row, reduced to what the lifting loop needs. */
  function SearchLastRow(PRIME: int, row: Row, indcol: nat, D: seq<int>, jr: nat): (pv: Pivot)
    requires PRIME >= 2 && ActiveRow(row, indcol, Pow(PRIME, jr), |D|)
    ensures |pv.D| == |D|
    ensures pv.c == -2 <==> Stuck(PRIME, row)
    ensures pv.c == -2 ==> StuckRow(PRIME, row, indcol, jr, |D|) && pv.row == row && pv.indcol == indcol && pv.D == D
    ensures pv.c != -2 ==> pv.indcol == indcol || (pv.indcol == indcol + 1 && indcol < |D| && jr > 0)
    ensures pv.c != -2 ==> if pv.indcol == indcol then pv.row == [] else SameColumnReady(PRIME, pv.row, indcol)
  {
    ActiveSearchable(PRIME, row, indcol, jr, D);
    CherchePivotTransposes(PRIME, row, indcol, D);
    CherchePivot(PRIME, row, indcol, D)
  }

  /** `while (MOD > 1) { MOD /= PRIME; ranks.push_back(indcol); }`: one rank per power of PRIME left. */
  method RecordRemaining(PRIME: int, MOD: int, jr: nat, indcol: nat, ranks: seq<nat>) returns (MOD': int, ranks': seq<nat>)
    requires PRIME >= 2 && MOD == Pow(PRIME, jr)
    ensures MOD' == 1 && ranks' == ranks + Repeat(indcol, jr)
  {
    MOD', ranks' := MOD, ranks;
    var j: nat := jr;
    while MOD' > 1
      invariant j <= jr && MOD' == Pow(PRIME, j)
      invariant ranks' == ranks + Repeat(indcol, jr - j)
      decreases j
    {
      PowAboveOne(PRIME, j);
      PowDivide(PRIME, j);
      MOD' := MOD' / PRIME;
      ranks' := ranks' + [indcol];
      j := j - 1;
      assert ranks' == ranks + Repeat(indcol, jr - j);
    }
    PowAboveOne(PRIME, j);
  }

  // ---------------------------------------------------------------------
  // The driver
  // ---------------------------------------------------------------------

  /** ranks is non-decreasing and bounded by the current rank x. */
  predicate RanksUpTo(ranks: seq<nat>, x: nat)
  {
    && (forall i, j :: 0 <= i <= j < |ranks| ==> ranks[i] <= ranks[j])
    && (forall i :: 0 <= i < |ranks| ==> ranks[i] <= x)
  }

  lemma AppendRepeat(ranks: seq<nat>, x: nat, n: nat, y: nat)
    requires RanksUpTo(ranks, x) && x <= y
    ensures RanksUpTo(ranks + Repeat(x, n), y)
    ensures n > 0 ==> (ranks + Repeat(x, n))[|ranks| + n - 1] == x
  {
  }

  /** The number of non-empty rows among the first k. */
  function PivotRows(A: seq<Row>, k: nat): (n: nat)
    requires k <= |A|
    ensures n <= k
  {
    if k == 0 then 0 else PivotRows(A, k - 1) + Ind(A[k - 1] != [])
  }

  /**
   * The first k rows are in echelon form: every non-empty row starts with a
   * unit at the column counting the non-empty rows above it.
   */
  ghost predicate Echelon(PRIME: int, A: seq<Row>, k: nat)
    requires PRIME != 0 && k <= |A|
  {
    forall i :: 0 <= i < k && A[i] != [] ==> SameColumnReady(PRIME, A[i], PivotRows(A, i))
  }

  lemma {:induction false} PivotRowsFrame(A: seq<Row>, B: seq<Row>, k: nat)
    requires k <= |A| && k <= |B| && forall i :: 0 <= i < k ==> A[i] == B[i]
    ensures PivotRows(A, k) == PivotRows(B, k)
  {
    if k > 0 {
      PivotRowsFrame(A, B, k - 1);
    }
  }

  /** Appending one more row to an echelon prefix: empty, or a pivot at the next column. */
  lemma EchelonExtend(PRIME: int, A: seq<Row>, B: seq<Row>, k: nat)
    requires PRIME != 0 && k < |A| && k < |B| && forall i :: 0 <= i < k ==> A[i] == B[i]
    requires Echelon(PRIME, A, k)
    requires B[k] == [] || SameColumnReady(PRIME, B[k], PivotRows(A, k))
    ensures Echelon(PRIME, B, k + 1)
    ensures PivotRows(B, k + 1) == PivotRows(A, k) + Ind(B[k] != [])
  {
    forall i | 0 <= i <= k
      ensures PivotRows(A, i) == PivotRows(B, i)
    {
      PivotRowsFrame(A, B, i);
    }
  }

  /** `EchelonExtend` for a row written in place. */
  lemma EchelonAppend(PRIME: int, A: seq<Row>, k: nat, row: Row)
    requires PRIME != 0 && k < |A| && Echelon(PRIME, A, k)
    requires row == [] || SameColumnReady(PRIME, row, PivotRows(A, k))
    ensures Echelon(PRIME, A[k := row], k + 1)
    ensures PivotRows(A[k := row], k + 1) == PivotRows(A, k) + Ind(row != [])
  {
    EchelonExtend(PRIME, A, A[k := row], k);
  }

  /** After the search, the pivot row p moved to position k keeps everything active. */
  lemma SwapActive(B: seq<Row>, k: nat, p: nat, indcol: nat, MOD: int, n: nat)
    requires k <= p < |B| && ActiveFrom(B, k, indcol, MOD, n)
    ensures ActiveFrom(B[k := B[p]][p := B[k]], k, indcol, MOD, n)
  {
  }

  /**
   * One pass of the main loop of `gauss_rankin` for row k: the pivot search
   * with lifting, the row exchange `p <-> k`, the column exchange
   * `Q.permute(indcol-1, c)` when the pivot column moved, the elimination
   * below row k and `PreserveUpperMatrixRow`.
   */
  method EliminationStep(PRIME: int, A: seq<Row>, k: nat, indcol: nat, D: seq<int>, MOD: int, jrem: nat,
                         ranks: seq<nat>, Q: seq<nat>, on: bool, preserve: bool)
    returns (A': seq<Row>, D': seq<int>, indcol': nat, MOD': int, jrem': nat, ranks': seq<nat>, Q': seq<nat>)
    requires PRIME >= 2 && k < |A| && MOD == Pow(PRIME, jrem) && |Q| == |D|
    requires ActiveFrom(A, k, indcol, MOD, |D|)
    ensures |A'| == |A| && |D'| == |D| && |Q'| == |Q| && multiset(Q') == multiset(Q)
    ensures forall i :: 0 <= i < k ==> A'[i] == A[i]
    ensures jrem' <= jrem && MOD' == Pow(PRIME, jrem')
    ensures ranks' == ranks + Repeat(indcol, jrem - jrem')
    ensures indcol' == indcol || (indcol' == indcol + 1 && indcol < |D| && jrem' > 0)
    ensures ActiveFrom(A', k + 1, indcol', MOD', |D|)
    ensures indcol' == indcol || !preserve ==> A'[k] == []
    ensures indcol' == indcol + 1 && preserve ==> SameColumnReady(PRIME, A'[k], indcol)
  {
    var B, p, c;
    B, D', p, c, indcol', MOD', jrem', ranks' := FindPivot(PRIME, A, k, indcol, D, MOD, jrem, ranks, on);
    var pivot := B[p];
    if p != k {
      SwapActive(B, k, p, indcol, MOD', |D|);
      B := B[k := B[p]][p := B[k]];
    }
    assert B[k] == pivot && ActiveFrom(B, k, indcol, MOD', |D|);
    Q' := Q;
    if c != -1 {
      if c != indcol' as int - 1 {
        Q' := Permute(Q, indcol' - 1, c);
      }
      B, D' := EliminateBelow(MOD', B, k, indcol', c, D');
    }
    A' := B[k := PreserveUpperMatrixRow(B[k], preserve)];
  }

  /**
   * `gauss_rankin`: normalise the rows modulo FMOD = PRIME^e, eliminate rows
   * 0..Ni-2 with lifting, then finish the last row and record one rank for
   * every power of PRIME left. The result has one rank per power of PRIME,
   * non-decreasing, ending with the number of pivots found, which is at most the
   * number of rows and of columns; the column order stays a permutation;
   * the kept pivot rows are in echelon form with one non-empty row per unit
   * of rank, or cleared when the upper matrix is not preserved.
   */
  method GaussRankin(PRIME: int, FMOD: int, e: nat, A0: seq<Row>, Q0: seq<nat>, Nj: nat, on: bool, preserve: bool)
    returns (ranks: seq<nat>, A: seq<Row>, Q: seq<nat>, rank: nat)
    requires PRIME >= 2 && FMOD == Pow(PRIME, e) && |A0| >= 1 && |Q0| == Nj
    requires forall i :: 0 <= i < |A0| ==> Sorted(A0[i]) && ColsBelow(A0[i], Nj)
    ensures |A| == |A0| && |Q| == Nj && multiset(Q) == multiset(Q0)
    ensures |ranks| == e && RanksUpTo(ranks, rank)
    ensures e > 0 ==> ranks[e - 1] == rank
    ensures e == 0 ==> rank == 0
    ensures rank <= |A0| && rank <= Nj
    ensures !preserve ==> forall i :: 0 <= i < |A0| - 1 ==> A[i] == []
    ensures preserve ==> Echelon(PRIME, A, |A0|) && PivotRows(A, |A0|) == rank
  {
    var D;
    PowAboveOne(PRIME, e);
    A, D := NormalizeRows(A0, FMOD, Nj);
    Q := Q0;
    ranks := [];
    var MOD := FMOD;
    var jrem: nat := e;
    var indcol: nat := 0;
    var last := |A| - 1;
    var k := 0;
    while k < last
      invariant k <= last && |A| == |A0| && |D| == Nj && |Q| == Nj && multiset(Q) == multiset(Q0)
      invariant MOD == Pow(PRIME, jrem) && |ranks| + jrem == e
      invariant indcol <= k && indcol <= Nj && (e == 0 ==> indcol == 0)
      invariant RanksUpTo(ranks, indcol)
      invariant jrem == 0 && |ranks| > 0 ==> ranks[|ranks| - 1] == indcol
      invariant ActiveFrom(A, k, indcol, MOD, Nj)
      invariant !preserve ==> forall i :: 0 <= i < k ==> A[i] == []
      invariant preserve ==> Echelon(PRIME, A, k) && PivotRows(A, k) == indcol
    {
      var A', D', indcol', MOD', jrem', ranks', Q';
      A', D', indcol', MOD', jrem', ranks', Q' := EliminationStep(PRIME, A, k, indcol, D, MOD, jrem, ranks, Q, on, preserve);
      AppendRepeat(ranks, indcol, jrem - jrem', indcol');
      if preserve {
        EchelonExtend(PRIME, A, A', k);
      }
      A, D, indcol, MOD, jrem, ranks, Q := A', D', indcol', MOD', jrem', ranks', Q';
      k := k + 1;
    }
    ranks, A, rank := FinishLastRow(PRIME, A, D, indcol, jrem, ranks, e, on, preserve);
  }

  /**
   * The end of `gauss_rankin`: the last row's pivot search and lifting,
   * then `while (MOD > 1) { MOD /= PRIME; ranks.push_back(indcol); }`.
   */
  method FinishLastRow(PRIME: int, A: seq<Row>, D: seq<int>, indcol: nat, jrem: nat, ranks: seq<nat>, e: nat, on: bool, preserve: bool)
    returns (ranks': seq<nat>, A': seq<Row>, rank: nat)
    requires PRIME >= 2 && |A| >= 1 && |ranks| + jrem == e
    requires indcol <= |A| - 1 && indcol <= |D| && (e == 0 ==> indcol == 0)
    requires RanksUpTo(ranks, indcol) && (jrem == 0 && |ranks| > 0 ==> ranks[|ranks| - 1] == indcol)
    requires ActiveRow(A[|A| - 1], indcol, Pow(PRIME, jrem), |D|)
    requires !preserve ==> forall i :: 0 <= i < |A| - 1 ==> A[i] == []
    requires preserve ==> Echelon(PRIME, A, |A| - 1) && PivotRows(A, |A| - 1) == indcol
    ensures |A'| == |A| && forall i :: 0 <= i < |A| - 1 ==> A'[i] == A[i]
    ensures |ranks'| == e && RanksUpTo(ranks', rank)
    ensures e > 0 ==> ranks'[e - 1] == rank
    ensures e == 0 ==> rank == 0
    ensures rank <= |A| && rank <= |D|
    ensures preserve ==> Echelon(PRIME, A', |A|) && PivotRows(A', |A|) == rank
  {
    var last := |A| - 1;
    var r := LastRowPivot(PRIME, A[last], indcol, D, jrem, ranks, on);
    A' := A[last := r.pv.row];
    if preserve {
      EchelonAppend(PRIME, A, last, r.pv.row);
    }
    var MOD';
    MOD', ranks' := RecordRemaining(PRIME, Pow(PRIME, r.jr), r.jr, r.pv.indcol, r.ranks);
    rank := r.pv.indcol;
    FinalRanks(ranks, indcol, jrem, r.jr, rank, e);
  }

  /**
   * The ranks after the last row: the old rank for every power of PRIME the
   * last row was lifted through, then the new rank for every power left.
   */
  lemma FinalRanks(ranks: seq<nat>, indcol: nat, jrem: nat, jr: nat, rank: nat, e: nat)
    requires |ranks| + jrem == e && jr <= jrem && (e == 0 ==> indcol == 0)
    requires RanksUpTo(ranks, indcol) && (jrem == 0 && |ranks| > 0 ==> ranks[|ranks| - 1] == indcol)
    requires rank == indcol || (rank == indcol + 1 && jr > 0)
    ensures var final := ranks + Repeat(indcol, jrem - jr) + Repeat(rank, jr);
      |final| == e && RanksUpTo(final, rank) && (e > 0 ==> final[e - 1] == rank) && (e == 0 ==> rank == 0)
  {
    AppendRepeat(ranks, indcol, jrem - jr, rank);
    AppendRepeat(ranks + Repeat(indcol, jrem - jr), rank, jr, rank);
  }
}
