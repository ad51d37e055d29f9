/**
 * Conversions between COO and CSR storage, and the COO transpose.
 *
 * COO to CSR (`exporte` of the COO matrix) keeps `colid` and `data` and
 * rebuilds `start` by counting the triples of every row. CSR to COO
 * (`importe` of the COO matrix, and equally `exporte` of the CSR matrix)
 * keeps `colid` and `data` and writes i into `rowid` over row i's slice.
 * The COO transpose is the CSR transpose's counting sort run directly on
 * the COO vectors.
 */
module CooConvert {
  import opened CooMatrix
  import SparseRows
  import CsrMatrix
  import CsrOps
  import Counting
  import CsrTranspose

  type Csr = CsrMatrix.Csr

  /** Write v at every position of [lo, hi) inside rid. */
  function FillRange(rid: seq<nat>, lo: int, hi: int, v: nat): (r: seq<nat>)
    ensures |r| == |rid|
    ensures forall k :: 0 <= k < |rid| ==> r[k] == if lo <= k < hi then v else rid[k]
  {
    seq(|rid|, k requires 0 <= k < |rid| => if lo <= k < hi then v else rid[k])
  }

  /** The loop `for i < m: for j in [start[i], start[i + 1]): rowid[j] = i`. */
  function RowidFill(start: seq<int>, m: nat, rid: seq<nat>): (r: seq<nat>)
    requires |start| > m
    ensures |r| == |rid|
  {
    if m == 0 then rid else FillRange(RowidFill(start, m - 1, rid), start[m - 1], start[m], m - 1)
  }

  /** After the first m rows are filled, each position below start[m] holds its row and the rest are untouched. */
  lemma {:induction false} RowidFillPrefix(S: Csr, m: nat, rid: seq<nat>, p: nat)
    requires CsrMatrix.Shaped(S) && m <= S.rownb && |rid| == S.nbnz && p < S.nbnz
    ensures RowidFill(S.start, m, rid)[p] == if p < S.start[m] then CsrOps.RowAt(S, p) else rid[p]
  {
    if m > 0 {
      RowidFillPrefix(S, m - 1, rid, p);
      if S.start[m - 1] <= p < S.start[m] {
        CsrTranspose.RowAtUnique(S, p, m - 1);
      }
    }
  }

  /** Filling every row writes each position's own row over whatever rid held. */
  lemma RowidFillRows(S: Csr, rid: seq<nat>)
    requires CsrMatrix.Shaped(S) && |rid| == S.nbnz
    ensures forall p :: 0 <= p < S.nbnz ==> RowidFill(S.start, S.rownb, rid)[p] == CsrOps.RowAt(S, p)
  {
    forall p | 0 <= p < S.nbnz
      ensures RowidFill(S.start, S.rownb, rid)[p] == CsrOps.RowAt(S, p)
    {
      RowidFillPrefix(S, S.rownb, rid, p);
    }
  }

  // ---------------------------------------------------------------------
  // COO to CSR
  // ---------------------------------------------------------------------

  /**
   * COO `exporte(CSR)`: S takes the dimensions, `colid` and `data`; its
   * `start` is zeroed, `start[rowid[p] + 1]` counts every triple and the
   * counts are accumulated. All of S is overwritten, so S's old contents
   * do not appear.
   */
  function ToCsr(A: Coo): (S: Csr)
    requires Consistent(A) && Counting.InRange(A.rowid, A.rownb)
  {
    CsrMatrix.Csr(A.rownb, A.colnb, A.nbnz, Counting.PrefixCounts(A.rowid, A.rownb), A.colid, A.data)
  }

  /** The exported matrix is well shaped and row i's slice is as long as the number of triples in row i. */
  lemma ToCsrShaped(A: Coo)
    requires Consistent(A) && Counting.InRange(A.rowid, A.rownb)
    ensures CsrMatrix.Shaped(ToCsr(A)) && |ToCsr(A).start| == A.rownb + 1
    ensures forall i :: 0 <= i < A.rownb ==> ToCsr(A).start[i + 1] - ToCsr(A).start[i] == |Counting.Positions(A.rowid, i, A.nbnz)|
  {
    Counting.PrefixCountsPartition(A.rowid, A.rownb);
  }

  // ---------------------------------------------------------------------
  // CSR to COO
  // ---------------------------------------------------------------------

  /**
   * COO `importe(CSR)`, and equally CSR `exporte(COO)`: A0 is resized to
   * S's dimensions and nbnz (so `rowid` keeps A0's first values, padded
   * with zeros), takes S's `colid` and `data`, and gets row i written over
   * row i's slice of `rowid`.
   */
  function FromCsr(A0: Coo, S: Csr): (A: Coo)
    requires CsrMatrix.Shaped(S)
  {
    Coo(S.rownb, S.colnb, S.nbnz, RowidFill(S.start, S.rownb, CsrOps.Resize(A0.rowid, S.nbnz, 0)), S.colid, S.data)
  }

  /** Every triple of the import names its storage position's row, so the rows never decrease. */
  lemma FromCsrRows(A0: Coo, S: Csr)
    requires CsrMatrix.Shaped(S)
    ensures Consistent(FromCsr(A0, S))
    ensures forall p :: 0 <= p < S.nbnz ==> FromCsr(A0, S).rowid[p] == CsrOps.RowAt(S, p)
    ensures Counting.InRange(FromCsr(A0, S).rowid, S.rownb) && Counting.NonDecreasing(FromCsr(A0, S).rowid)
  {
    var A := FromCsr(A0, S);
    RowidFillRows(S, CsrOps.Resize(A0.rowid, S.nbnz, 0));
    forall p, q | 0 <= p <= q < |A.rowid|
      ensures A.rowid[p] <= A.rowid[q]
    {
      RowAtMonotone(S, p, q);
    }
  }

  /** The row owning a position never decreases along the storage. */
  lemma RowAtMonotone(S: Csr, p: nat, q: nat)
    requires CsrMatrix.Shaped(S) && p <= q < S.nbnz
    ensures CsrOps.RowAt(S, p) <= CsrOps.RowAt(S, q)
  {
    var x, y := CsrOps.RowAt(S, p), CsrOps.RowAt(S, q);
  }

  /** A valid CSR matrix imports as an ordered COO matrix reading the same entries. */
  lemma FromCsrEntries(A0: Coo, S: Csr)
    requires CsrMatrix.Valid(S)
    ensures Ordered(FromCsr(A0, S))
    ensures forall i, j :: 0 <= i < S.rownb ==> Lookup(FromCsr(A0, S), i, j) == CsrMatrix.Entry(S, i, j)
    ensures CsrMatrix.ZeroFree(S) ==> ZeroFree(FromCsr(A0, S))
  {
    var A := FromCsr(A0, S);
    FromCsrOrdered(A0, S);
    if CsrMatrix.ZeroFree(S) {
      forall p | 0 <= p < S.nbnz
        ensures S.data[p] != 0
      {
        CsrTranspose.RowAtEntry(S, p);
      }
    }
    forall i, j | 0 <= i < S.rownb
      ensures Lookup(A, i, j) == CsrMatrix.Entry(S, i, j)
    {
      if q :| 0 <= q < A.nbnz && Holds(A, q, i, j) {
        LookupAt(A, q);
        CsrTranspose.EntryAtPosition(S, i, j, q);
      } else {
        LookupAbsent(A, i, j);
        forall q | 0 <= q < S.nbnz && S.colid[q] == j
          ensures CsrOps.RowAt(S, q) != i
        {
          assert !Holds(A, q, i, j);
        }
        CsrTranspose.EntryAbsent(S, i, j);
      }
    }
  }

  lemma FromCsrOrdered(A0: Coo, S: Csr)
    requires CsrMatrix.Valid(S)
    ensures Ordered(FromCsr(A0, S))
    ensures forall p :: 0 <= p < S.nbnz ==> FromCsr(A0, S).rowid[p] == CsrOps.RowAt(S, p)
  {
    var A := FromCsr(A0, S);
    FromCsrRows(A0, S);
    CsrTranspose.ValidColumnsInRange(S);
    forall p, q | 0 <= p < q < A.nbnz
      ensures Before(A.rowid[p], A.colid[p], A.rowid[q], A.colid[q])
    {
      RowAtMonotone(S, p, q);
      var x := CsrOps.RowAt(S, p);
      if CsrOps.RowAt(S, q) == x {
        var r := CsrMatrix.RowOf(S, x);
        assert r[p - S.start[x]].0 < r[q - S.start[x]].0;
      }
    }
  }

  // ---------------------------------------------------------------------
  // Round trips
  // ---------------------------------------------------------------------

  /** A COO matrix whose rows never decrease comes back unchanged from CSR, whatever A0 held. */
  lemma CooCsrCoo(A0: Coo, A: Coo)
    requires Consistent(A) && Counting.InRange(A.rowid, A.rownb) && Counting.NonDecreasing(A.rowid)
    ensures CsrMatrix.Shaped(ToCsr(A)) && FromCsr(A0, ToCsr(A)) == A
  {
    var S := ToCsr(A);
    ToCsrShaped(A);
    FromCsrRows(A0, S);
    var B := FromCsr(A0, S);
    forall p | 0 <= p < A.nbnz
      ensures B.rowid[p] == A.rowid[p]
    {
      Counting.SortedKeySlice(A.rowid, A.rownb, p);
      CsrTranspose.RowAtUnique(S, p, A.rowid[p]);
    }
  }

  /** A CSR matrix with exactly rownb + 1 offsets comes back unchanged from COO. */
  lemma CsrCooCsr(A0: Coo, S: Csr)
    requires CsrMatrix.Shaped(S) && |S.start| == S.rownb + 1
    ensures Counting.InRange(FromCsr(A0, S).rowid, S.rownb)
    ensures ToCsr(FromCsr(A0, S)) == S
  {
    var A := FromCsr(A0, S);
    FromCsrRows(A0, S);
    var T := ToCsr(A);
    forall k | 0 <= k <= S.rownb
      ensures T.start[k] == S.start[k]
    {
      Counting.PrefixCountsBelow(A.rowid, S.rownb, k);
      forall q | 0 <= q < S.start[k]
        ensures A.rowid[q] < k
      {
        var x := CsrOps.RowAt(S, q);
      }
      forall q | S.start[k] <= q < A.nbnz
        ensures A.rowid[q] >= k
      {
        var x := CsrOps.RowAt(S, q);
      }
      Counting.BelowStable(A.rowid, k, S.start[k], A.nbnz);
      Counting.BelowAll(A.rowid, k, S.start[k]);
    }
  }

  /** An ordered COO matrix exports to a valid CSR matrix reading the same entries. */
  lemma ToCsrEntries(A: Coo)
    requires Ordered(A)
    ensures Counting.InRange(A.rowid, A.rownb)
    ensures CsrMatrix.Valid(ToCsr(A))
    ensures forall i, j :: 0 <= i < A.rownb ==> CsrMatrix.Entry(ToCsr(A), i, j) == Lookup(A, i, j)
    ensures ZeroFree(A) ==> CsrMatrix.ZeroFree(ToCsr(A))
  {
    ToCsrValid(A);
    CooCsrCoo(A, A);
    FromCsrEntries(A, ToCsr(A));
  }

  lemma ToCsrValid(A: Coo)
    requires Ordered(A)
    ensures Counting.InRange(A.rowid, A.rownb) && CsrMatrix.Valid(ToCsr(A))
  {
    var S := ToCsr(A);
    ToCsrShaped(A);
    forall p, q | 0 <= p <= q < A.nbnz
      ensures A.rowid[p] <= A.rowid[q]
    {
      RowsNonDecreasing(A, p, q);
    }
    CooCsrCoo(A, A);
    FromCsrRows(A, S);
    forall i | 0 <= i < A.rownb
      ensures SparseRows.Sorted(CsrMatrix.RowOf(S, i)) && SparseRows.ColsBelow(CsrMatrix.RowOf(S, i), S.colnb)
    {
      ToCsrRowSorted(A, i);
    }
  }

  /** Row i's slice of the export holds row i's triples, whose columns increase. */
  lemma ToCsrRowSorted(A: Coo, i: nat)
    requires Ordered(A) && Counting.InRange(A.rowid, A.rownb) && i < A.rownb
    requires CsrMatrix.Shaped(ToCsr(A))
    requires forall p :: 0 <= p < A.nbnz ==> A.rowid[p] == CsrOps.RowAt(ToCsr(A), p)
    ensures SparseRows.Sorted(CsrMatrix.RowOf(ToCsr(A), i)) && SparseRows.ColsBelow(CsrMatrix.RowOf(ToCsr(A), i), A.colnb)
  {
    var S := ToCsr(A);
    var r := CsrMatrix.RowOf(S, i);
    forall k, l | 0 <= k < l < |r|
      ensures r[k].0 < r[l].0
    {
      var p, q := S.start[i] + k, S.start[i] + l;
      CsrTranspose.RowAtUnique(S, p, i);
      CsrTranspose.RowAtUnique(S, q, i);
      assert Before(A.rowid[p], A.colid[p], A.rowid[q], A.colid[q]);
    }
  }

  // ---------------------------------------------------------------------
  // The COO transpose
  // ---------------------------------------------------------------------

  /**
   * COO `transpose(S)`: count the triples of every column into `outStart`
   * and of every row into `inStart`; resize S to colnb x rownb with nbnz
   * triples; walk the triples row by row (the rows as `inStart` cuts them),
   * writing the triple's row and value at the next free place of its
   * column's slice; then write c into `rowid` over column c's slice.
   */
  function Transpose(A: Coo, S0: Coo): (S: Coo)
    requires Consistent(A) && Counting.InRange(A.rowid, A.rownb) && Counting.InRange(A.colid, A.colnb)
  {
    var outStart := Counting.PrefixCounts(A.colid, A.colnb);
    var inRows := ToCsr(A);
    ToCsrShaped(A);
    var st := CsrTranspose.ScatterAfter(inRows, outStart, CsrTranspose.InitScatter(inRows, S0.colid, S0.data), A.nbnz);
    Coo(A.colnb, A.rownb, A.nbnz, RowidFill(outStart, A.colnb, CsrOps.Resize(S0.rowid, A.nbnz, 0)), st.colid, st.data)
  }

  /** The COO transpose is the CSR transpose of the exported matrix, imported back. */
  lemma TransposeViaCsr(A: Coo, S0: Coo, T0: Csr)
    requires Consistent(A) && Counting.InRange(A.rowid, A.rownb) && Counting.InRange(A.colid, A.colnb)
    requires |T0.start| > A.colnb && T0.colid == S0.colid && T0.data == S0.data
    ensures CsrMatrix.Shaped(ToCsr(A))
    ensures CsrMatrix.Shaped(CsrTranspose.Transpose(ToCsr(A), T0))
    ensures Transpose(A, S0) == FromCsr(S0, CsrTranspose.Transpose(ToCsr(A), T0))
  {
    ToCsrShaped(A);
    CsrTranspose.TransposeRows(ToCsr(A), T0);
    Counting.PrefixCountsPartition(A.colid, A.colnb);
  }

  /** Transposing keeps the rows in order, whatever the input order. */
  lemma TransposeRowsSorted(A: Coo, S0: Coo)
    requires Consistent(A) && Counting.InRange(A.rowid, A.rownb) && Counting.InRange(A.colid, A.colnb)
    ensures Consistent(Transpose(A, S0))
    ensures Transpose(A, S0).rownb == A.colnb && Transpose(A, S0).colnb == A.rownb && Transpose(A, S0).nbnz == A.nbnz
    ensures Counting.NonDecreasing(Transpose(A, S0).rowid)
  {
    var T0 := CsrMatrix.Csr(0, 0, 0, seq(A.colnb + 1, _ => 0), S0.colid, S0.data);
    TransposeViaCsr(A, S0, T0);
    FromCsrRows(S0, CsrTranspose.Transpose(ToCsr(A), T0));
  }

  /** An ordered matrix transposes to an ordered matrix with S(j, i) = A(i, j). */
  lemma TransposeEntries(A: Coo, S0: Coo)
    requires Ordered(A)
    ensures Counting.InRange(A.rowid, A.rownb) && Counting.InRange(A.colid, A.colnb)
    ensures Ordered(Transpose(A, S0))
    ensures Transpose(A, S0).rownb == A.colnb && Transpose(A, S0).colnb == A.rownb && Transpose(A, S0).nbnz == A.nbnz
    ensures forall i, j :: 0 <= i < A.rownb && 0 <= j < A.colnb ==> Lookup(Transpose(A, S0), j, i) == Lookup(A, i, j)
    ensures ZeroFree(A) ==> ZeroFree(Transpose(A, S0))
  {
    var T0 := CsrMatrix.Csr(0, 0, 0, seq(A.colnb + 1, _ => 0), S0.colid, S0.data);
    ToCsrEntries(A);
    var C := ToCsr(A);
    TransposeViaCsr(A, S0, T0);
    CsrTranspose.TransposeEntries(C, T0);
    var T := CsrTranspose.Transpose(C, T0);
    FromCsrEntries(S0, T);
  }
}
