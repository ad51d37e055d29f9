/**
 * `transpose` of the CSR matrix: a counting sort of the stored entries by
 * column. Pass one counts the entries of every column into `start[c + 1]`,
 * pass two turns the counts into offsets, pass three walks the entries in
 * storage order and drops each one at the next free place of its column,
 * recording its row as the new column index.
 *
 * The reference the result is compared with is `Column(A, c)`: the entries
 * of column c in storage order, each as (row, value).
 */
module CsrTranspose {
  import opened SparseRows
  import opened CsrMatrix
  import opened CsrOps
  import opened Counting

  /** Position p sits at offset p - start[x] of the row x that owns it. */
  lemma RowAtEntry(A: Csr, p: nat)
    requires Shaped(A) && p < A.nbnz
    ensures RowOf(A, RowAt(A, p))[p - A.start[RowAt(A, p)]] == (A.colid[p], A.data[p])
  {
  }

  lemma ValidColumnsInRange(A: Csr)
    requires Valid(A)
    ensures InRange(A.colid, A.colnb)
  {
    forall p | 0 <= p < |A.colid|
      ensures A.colid[p] < A.colnb
    {
      RowAtEntry(A, p);
    }
  }

  /** A position inside row x's slice is owned by row x. */
  lemma RowAtUnique(A: Csr, p: nat, x: nat)
    requires Shaped(A) && x < A.rownb && A.start[x] <= p < A.start[x + 1]
    ensures RowAt(A, p) == x
  {
  }

  /**
   * Two positions of the same column in a valid matrix: the later one is in
   * a strictly later row, since within a row the columns increase.
   */
  lemma RowAtStrict(A: Csr, q: nat, p: nat)
    requires Valid(A) && q < p < A.nbnz && A.colid[q] == A.colid[p]
    ensures RowAt(A, q) < RowAt(A, p)
  {
    var x := RowAt(A, q);
    var r := RowOf(A, x);
    assert r[q - A.start[x]].0 == A.colid[q];
  }

  // ---------------------------------------------------------------------
  // Pass three: the scatter
  // ---------------------------------------------------------------------

  /** The output column indices and values, and `done_col`: how many entries each column has received. */
  datatype Scatter = Scatter(colid: seq<nat>, data: seq<int>, done: seq<int>)

  /** A write at k; the source checks `cur_place < size()`, which `ScatterPlaced` shows always holds. */
  function Put<T>(s: seq<T>, k: int, v: T): (r: seq<T>)
    ensures |r| == |s|
  {
    if 0 <= k < |s| then s[k := v] else s
  }

  /** Position p goes to the next free place of its column, carrying its row and value. */
  function ScatterStep(A: Csr, off: seq<int>, st: Scatter, p: nat): (st': Scatter)
    requires Shaped(A) && InRange(A.colid, A.colnb) && |off| == A.colnb + 1 && p < A.nbnz && |st.done| == A.colnb
    ensures |st'.colid| == |st.colid| && |st'.data| == |st.data| && |st'.done| == A.colnb
  {
    var c := A.colid[p];
    var place := off[c] + st.done[c];
    Scatter(Put(st.colid, place, RowAt(A, p)), Put(st.data, place, A.data[p]), st.done[c := st.done[c] + 1])
  }

  /**
   * The scatter after the first n positions. The source walks the rows with
   * `nextlig` and the positions with i, so the row it records for position
   * i is the row that owns i.
   */
  function ScatterAfter(A: Csr, off: seq<int>, init: Scatter, n: nat): (st: Scatter)
    requires Shaped(A) && InRange(A.colid, A.colnb) && |off| == A.colnb + 1 && n <= A.nbnz
    requires |init.done| == A.colnb
    ensures |st.colid| == |init.colid| && |st.data| == |init.data| && |st.done| == A.colnb
  {
    if n == 0 then init else ScatterStep(A, off, ScatterAfter(A, off, init, n - 1), n - 1)
  }

  /** Column c's first k received entries are those of its first k positions. */
  predicate Placed(A: Csr, off: seq<int>, st: Scatter, n: nat)
    requires Shaped(A) && |off| == A.colnb + 1 && n <= A.nbnz && |st.done| == A.colnb
  {
    && (forall c :: 0 <= c < A.colnb ==> st.done[c] == |Positions(A.colid, c, n)|)
    && (forall c, k :: 0 <= c < A.colnb && 0 <= k < |Positions(A.colid, c, n)| ==> PlacedAt(A, off, st, n, c, k))
  }

  predicate PlacedAt(A: Csr, off: seq<int>, st: Scatter, n: nat, c: nat, k: nat)
    requires Shaped(A) && |off| == A.colnb + 1 && n <= A.nbnz && c < A.colnb && k < |Positions(A.colid, c, n)|
  {
    && 0 <= off[c] + k < |st.colid| && off[c] + k < |st.data|
    && st.colid[off[c] + k] == RowAt(A, Positions(A.colid, c, n)[k])
    && st.data[off[c] + k] == A.data[Positions(A.colid, c, n)[k]]
  }

  /** The initial state: S's storage resized to nbnz and `done_col` zero. */
  function InitScatter(A: Csr, colid0: seq<nat>, data0: seq<int>): (st: Scatter)
    ensures |st.colid| == A.nbnz && |st.data| == A.nbnz && |st.done| == A.colnb
  {
    Scatter(Resize(colid0, A.nbnz, 0), Resize(data0, A.nbnz, 0), seq(A.colnb, _ => 0))
  }

  /** Every write lands inside its column's slice, so each column's entries arrive in storage order. */
  lemma {:induction false} ScatterPlaced(A: Csr, off: seq<int>, colid0: seq<nat>, data0: seq<int>, n: nat)
    requires Shaped(A) && InRange(A.colid, A.colnb) && Partitions(A.colid, A.colnb, off) && n <= A.nbnz
    ensures Placed(A, off, ScatterAfter(A, off, InitScatter(A, colid0, data0), n), n)
  {
    if n > 0 {
      ScatterPlaced(A, off, colid0, data0, n - 1);
      ScatterStepPlaced(A, off, ScatterAfter(A, off, InitScatter(A, colid0, data0), n - 1), n - 1);
    }
  }

  /** One scatter step keeps `Placed`. */
  lemma ScatterStepPlaced(A: Csr, off: seq<int>, st: Scatter, p: nat)
    requires Shaped(A) && InRange(A.colid, A.colnb) && Partitions(A.colid, A.colnb, off) && p < A.nbnz
    requires |st.done| == A.colnb && |st.colid| == A.nbnz && |st.data| == A.nbnz
    requires Placed(A, off, st, p)
    ensures Placed(A, off, ScatterStep(A, off, st, p), p + 1)
  {
    var c0 := A.colid[p];
    var st' := ScatterStep(A, off, st, p);
    forall c | 0 <= c < A.colnb
      ensures st'.done[c] == |Positions(A.colid, c, p + 1)|
    {
    }
    var n := p + 1;
    forall c, k | 0 <= c < A.colnb && 0 <= k < |Positions(A.colid, c, n)|
      ensures PlacedAt(A, off, st', n, c, k)
    {
      if c == c0 {
        ScatterSameColumn(A, off, st, p, k);
      } else {
        ScatterOtherColumn(A, off, st, p, c, k);
      }
    }
  }

  lemma ScatterSameColumn(A: Csr, off: seq<int>, st: Scatter, p: nat, k: nat)
    requires Shaped(A) && InRange(A.colid, A.colnb) && Partitions(A.colid, A.colnb, off) && p < A.nbnz
    requires |st.done| == A.colnb && |st.colid| == A.nbnz && |st.data| == A.nbnz
    requires Placed(A, off, st, p)
    requires k < |Positions(A.colid, A.colid[p], p + 1)|
    ensures PlacedAt(A, off, ScatterStep(A, off, st, p), p + 1, A.colid[p], k)
  {
    var c := A.colid[p];
    assert Positions(A.colid, c, p + 1) == Positions(A.colid, c, p) + [p];
    if k < |Positions(A.colid, c, p)| {
      ScatterSameEarlier(A, off, st, p, k);
    } else {
      ScatterSameNew(A, off, st, p, k);
    }
  }

  /** An entry of p's column placed earlier stays where it was. */
  lemma ScatterSameEarlier(A: Csr, off: seq<int>, st: Scatter, p: nat, k: nat)
    requires Shaped(A) && InRange(A.colid, A.colnb) && Partitions(A.colid, A.colnb, off) && p < A.nbnz
    requires |st.done| == A.colnb && |st.colid| == A.nbnz && |st.data| == A.nbnz
    requires Placed(A, off, st, p)
    requires Positions(A.colid, A.colid[p], p + 1) == Positions(A.colid, A.colid[p], p) + [p]
    requires k < |Positions(A.colid, A.colid[p], p)|
    ensures PlacedAt(A, off, ScatterStep(A, off, st, p), p + 1, A.colid[p], k)
  {
    var c := A.colid[p];
    assert PlacedAt(A, off, st, p, c, k);
    assert Positions(A.colid, c, p + 1)[k] == Positions(A.colid, c, p)[k];
  }

  /** Position p itself lands at the next free place of its column. */
  lemma ScatterSameNew(A: Csr, off: seq<int>, st: Scatter, p: nat, k: nat)
    requires Shaped(A) && InRange(A.colid, A.colnb) && Partitions(A.colid, A.colnb, off) && p < A.nbnz
    requires |st.done| == A.colnb && |st.colid| == A.nbnz && |st.data| == A.nbnz
    requires Placed(A, off, st, p)
    requires Positions(A.colid, A.colid[p], p + 1) == Positions(A.colid, A.colid[p], p) + [p]
    requires k == |Positions(A.colid, A.colid[p], p)|
    ensures PlacedAt(A, off, ScatterStep(A, off, st, p), p + 1, A.colid[p], k)
  {
    var c := A.colid[p];
    PositionsPrefix(A.colid, c, p + 1, A.nbnz);
    assert off[c] + k < off[c + 1] <= A.nbnz;
  }

  lemma ScatterOtherColumn(A: Csr, off: seq<int>, st: Scatter, p: nat, c: nat, k: nat)
    requires Shaped(A) && InRange(A.colid, A.colnb) && Partitions(A.colid, A.colnb, off) && p < A.nbnz
    requires |st.done| == A.colnb && |st.colid| == A.nbnz && |st.data| == A.nbnz
    requires Placed(A, off, st, p)
    requires c < A.colnb && c != A.colid[p] && k < |Positions(A.colid, c, p + 1)|
    ensures PlacedAt(A, off, ScatterStep(A, off, st, p), p + 1, c, k)
  {
    var c0 := A.colid[p];
    PositionsPrefix(A.colid, c, p + 1, A.nbnz);
    PositionsPrefix(A.colid, c0, p + 1, A.nbnz);
    assert Positions(A.colid, c, p + 1) == Positions(A.colid, c, p);
    assert Positions(A.colid, c0, p + 1) == Positions(A.colid, c0, p) + [p];
    assert PlacedAt(A, off, st, p, c, k);
    SlicesApart(A.colid, A.colnb, off, c, k, c0, st.done[c0]);
  }

  /** Places inside the slices of two different columns differ. */
  lemma SlicesApart(keys: seq<nat>, m: nat, off: seq<int>, c: nat, k: int, c0: nat, d: int)
    requires Partitions(keys, m, off) && c < m && c0 < m && c != c0
    requires 0 <= k && off[c] + k < off[c + 1] && 0 <= d && off[c0] + d < off[c0 + 1]
    ensures off[c] + k != off[c0] + d
  {
    if c < c0 {
      assert off[c + 1] <= off[c0];
    } else {
      assert off[c0 + 1] <= off[c];
    }
  }

  // ---------------------------------------------------------------------
  // transpose
  // ---------------------------------------------------------------------

  /**
   * `transpose(S)`: the offsets become S's `start`, the scattered rows and
   * values its `colid` and `data`, with the dimensions swapped; the closing
   * `finalize` finds start[colnb] = nbnz and leaves S as it is. S must
   * already hold coldim() + 1 offsets, since they are written before S is
   * resized.
   */
  function Transpose(A: Csr, S0: Csr): (S: Csr)
    requires Shaped(A) && InRange(A.colid, A.colnb) && |S0.start| > A.colnb
  {
    var off := PrefixCounts(A.colid, A.colnb);
    var st := ScatterAfter(A, off, InitScatter(A, S0.colid, S0.data), A.nbnz);
    Finalize(Csr(A.colnb, A.rownb, A.nbnz, off, st.colid, st.data))
  }

  /** Column c of A: its entries in storage order, each as (row, value). */
  function Column(A: Csr, c: nat): (r: Row)
    requires Shaped(A)
    ensures |r| == |Positions(A.colid, c, A.nbnz)|
  {
    var ps := Positions(A.colid, c, A.nbnz);
    seq(|ps|, k requires 0 <= k < |ps| => (RowAt(A, ps[k]), A.data[ps[k]]))
  }

  /** The transpose is shaped, has the dimensions swapped, and its row c is column c of A. */
  lemma TransposeRows(A: Csr, S0: Csr)
    requires Shaped(A) && InRange(A.colid, A.colnb) && |S0.start| > A.colnb
    ensures Shaped(Transpose(A, S0))
    ensures Transpose(A, S0).rownb == A.colnb && Transpose(A, S0).colnb == A.rownb && Transpose(A, S0).nbnz == A.nbnz
    ensures forall c :: 0 <= c < A.colnb ==> RowOf(Transpose(A, S0), c) == Column(A, c)
  {
    var off := PrefixCounts(A.colid, A.colnb);
    var st := ScatterAfter(A, off, InitScatter(A, S0.colid, S0.data), A.nbnz);
    PrefixCountsPartition(A.colid, A.colnb);
    ScatterPlaced(A, off, S0.colid, S0.data, A.nbnz);
    var S := Csr(A.colnb, A.rownb, A.nbnz, off, st.colid, st.data);
    assert Transpose(A, S0) == S;
    forall c | 0 <= c < A.colnb
      ensures RowOf(S, c) == Column(A, c)
    {
      ScatteredRow(A, off, st, c);
    }
  }

  lemma ScatteredRow(A: Csr, off: seq<int>, st: Scatter, c: nat)
    requires Shaped(A) && InRange(A.colid, A.colnb) && Partitions(A.colid, A.colnb, off)
    requires |st.done| == A.colnb && Placed(A, off, st, A.nbnz) && c < A.colnb
    requires Shaped(Csr(A.colnb, A.rownb, A.nbnz, off, st.colid, st.data))
    ensures RowOf(Csr(A.colnb, A.rownb, A.nbnz, off, st.colid, st.data), c) == Column(A, c)
  {
    var r := RowOf(Csr(A.colnb, A.rownb, A.nbnz, off, st.colid, st.data), c);
    forall k | 0 <= k < |r|
      ensures r[k] == Column(A, c)[k]
    {
      assert PlacedAt(A, off, st, A.nbnz, c, k);
    }
  }

  /** Column c of a valid matrix is a valid sparse row: rows strictly increase and stay below rownb. */
  lemma ColumnSorted(A: Csr, c: nat)
    requires Valid(A)
    ensures Sorted(Column(A, c)) && ColsBelow(Column(A, c), A.rownb)
  {
    var ps := Positions(A.colid, c, A.nbnz);
    var col := Column(A, c);
    PositionsIncreasing(A.colid, c, A.nbnz);
    forall k, l | 0 <= k < l < |col|
      ensures col[k].0 < col[l].0
    {
      RowAtStrict(A, ps[k], ps[l]);
    }
  }

  /** Reading row i, column j of a valid matrix: the value at the position of row i holding column j, zero if none does. */
  lemma EntryAtPosition(A: Csr, i: nat, j: nat, q: nat)
    requires Valid(A) && q < A.nbnz && RowAt(A, q) == i && A.colid[q] == j
    ensures CsrMatrix.Entry(A, i, j) == A.data[q]
  {
    RowAtEntry(A, q);
    GetAt(RowOf(A, i), q - A.start[i]);
  }

  lemma EntryAbsent(A: Csr, i: nat, j: nat)
    requires Valid(A) && i < A.rownb
    requires forall q :: 0 <= q < A.nbnz && A.colid[q] == j ==> RowAt(A, q) != i
    ensures CsrMatrix.Entry(A, i, j) == 0
  {
    var r := RowOf(A, i);
    forall k | 0 <= k < |r|
      ensures r[k].0 != j
    {
      RowAtUnique(A, A.start[i] + k, i);
    }
    GetAbsent(r, j);
  }

  /** Column j of a valid matrix reads, at row i, the entry (i, j). */
  lemma ColumnReads(A: Csr, i: nat, j: nat)
    requires Valid(A) && i < A.rownb
    ensures Get(Column(A, j), i) == CsrMatrix.Entry(A, i, j)
  {
    var ps := Positions(A.colid, j, A.nbnz);
    var col := Column(A, j);
    ColumnSorted(A, j);
    if q :| 0 <= q < A.nbnz && A.colid[q] == j && RowAt(A, q) == i {
      var k := PositionsHas(A.colid, j, A.nbnz, q);
      assert col[k] == (i, A.data[q]);
      GetAt(col, k);
      EntryAtPosition(A, i, j, q);
    } else {
      forall k | 0 <= k < |col|
        ensures col[k].0 != i
      {
      }
      GetAbsent(col, i);
      EntryAbsent(A, i, j);
    }
  }

  /**
   * `transpose` of a valid matrix is valid, with the dimensions and the
   * number of entries swapped over, and reads A(i, j) at (j, i); stored
   * values are carried over, so no zero appears.
   */
  lemma TransposeEntries(A: Csr, S0: Csr)
    requires Valid(A) && |S0.start| > A.colnb
    ensures InRange(A.colid, A.colnb)
    ensures Valid(Transpose(A, S0))
    ensures Transpose(A, S0).rownb == A.colnb && Transpose(A, S0).colnb == A.rownb && Transpose(A, S0).nbnz == A.nbnz
    ensures forall i, j :: 0 <= i < A.rownb && 0 <= j < A.colnb ==> CsrMatrix.Entry(Transpose(A, S0), j, i) == CsrMatrix.Entry(A, i, j)
    ensures ZeroFree(A) ==> ZeroFree(Transpose(A, S0))
  {
    ValidColumnsInRange(A);
    TransposeRows(A, S0);
    var S := Transpose(A, S0);
    forall c | 0 <= c < A.colnb
      ensures Sorted(RowOf(S, c)) && ColsBelow(RowOf(S, c), S.colnb)
    {
      ColumnSorted(A, c);
    }
    forall i, j | 0 <= i < A.rownb && 0 <= j < A.colnb
      ensures CsrMatrix.Entry(S, j, i) == CsrMatrix.Entry(A, i, j)
    {
      ColumnReads(A, i, j);
    }
    if ZeroFree(A) {
      forall c | 0 <= c < A.colnb
        ensures NoZeros(RowOf(S, c))
      {
        var ps := Positions(A.colid, c, A.nbnz);
        forall k | 0 <= k < |ps|
          ensures A.data[ps[k]] != 0
        {
          RowAtEntry(A, ps[k]);
        }
      }
    }
  }

  /** Transposing twice reads the original matrix back. */
  lemma TransposeTwice(A: Csr, S0: Csr, S1: Csr)
    requires Valid(A) && |S0.start| > A.colnb && |S1.start| > A.rownb
    ensures InRange(A.colid, A.colnb) && Valid(Transpose(A, S0)) && InRange(Transpose(A, S0).colid, Transpose(A, S0).colnb)
    ensures var T := Transpose(Transpose(A, S0), S1);
      && Valid(T) && T.rownb == A.rownb && T.colnb == A.colnb
      && forall i, j :: 0 <= i < A.rownb && 0 <= j < A.colnb ==> CsrMatrix.Entry(T, i, j) == CsrMatrix.Entry(A, i, j)
  {
    TransposeEntries(A, S0);
    var S := Transpose(A, S0);
    ValidColumnsInRange(S);
    TransposeEntries(S, S1);
  }
}
