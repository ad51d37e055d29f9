/**
 * `SparseMatrix<Field, SparseMatrixFormat::CSR>`: compressed sparse rows.
 * Row i owns the positions [start[i], start[i+1]) of `colid` and `data`.
 * Field elements are integers with zero read as 0; the field's own
 * normalisation of elements is not part of this model.
 *
 * The abstract matrix is read row by row through `RowOf`, which turns the
 * slice of row i into a `SparseRows.Row`; `Entry(A, i, j)` is then the
 * value at column j of that row.
 */
module CsrMatrix {
  import opened SparseRows

  /**
   * The fields `_rownb`, `_colnb`, `_nbnz`, `_start`, `_colid`, `_data`.
   * `start` holds integers because `clean` can drive an entry below zero;
   * in a shaped matrix every entry up to rownb is non-negative.
   */
  datatype Csr = Csr(rownb: nat, colnb: nat, nbnz: nat, start: seq<int>, colid: seq<nat>, data: seq<int>)

  /**
   * The storage invariant a finalised matrix keeps: `start` covers every row
   * (it may be longer after `compress`), starts at 0, never decreases up to
   * rownb and ends at nbnz, which is the length of `colid` and `data`.
   */
  predicate Shaped(A: Csr)
  {
    && |A.start| > A.rownb
    && A.start[0] == 0
    && (forall i, k :: 0 <= i <= k <= A.rownb ==> A.start[i] <= A.start[k])
    && A.start[A.rownb] == A.nbnz
    && |A.colid| == A.nbnz && |A.data| == A.nbnz
  }

  function Zip(cols: seq<nat>, vals: seq<int>): (r: Row)
    requires |cols| == |vals|
    ensures |r| == |cols|
    ensures forall k :: 0 <= k < |r| ==> r[k] == (cols[k], vals[k])
  {
    seq(|cols|, k requires 0 <= k < |cols| => (cols[k], vals[k]))
  }

  /** Row i as a sparse row of (column, value) pairs in storage order. */
  function RowOf(A: Csr, i: nat): (r: Row)
    requires Shaped(A) && i < A.rownb
    ensures |r| == A.start[i + 1] - A.start[i]
    ensures forall k :: 0 <= k < |r| ==> r[k] == (A.colid[A.start[i] + k], A.data[A.start[i] + k])
  {
    Zip(A.colid[A.start[i]..A.start[i + 1]], A.data[A.start[i]..A.start[i + 1]])
  }

  /** Shaped, and every row strictly column-sorted with columns below colnb. */
  predicate Valid(A: Csr)
  {
    && Shaped(A)
    && forall i :: 0 <= i < A.rownb ==> Sorted(RowOf(A, i)) && ColsBelow(RowOf(A, i), A.colnb)
  }

  /** No stored value is zero. */
  predicate ZeroFree(A: Csr)
    requires Shaped(A)
  {
    forall i :: 0 <= i < A.rownb ==> NoZeros(RowOf(A, i))
  }

  /** The abstract matrix entry (i, j). */
  function Entry(A: Csr, i: nat, j: nat): int
    requires Shaped(A) && i < A.rownb
  {
    Get(RowOf(A, i), j)
  }

  /** The empty m x n matrix of the `(F, m, n)` constructor; `(F)` is the 0 x 0 one. */
  function Empty(m: nat, n: nat): (A: Csr)
    ensures Valid(A) && ZeroFree(A) && A.rownb == m && A.colnb == n && A.nbnz == 0
    ensures forall i, j :: 0 <= i < m ==> Entry(A, i, j) == 0
  {
    Csr(m, n, 0, seq(m + 1, _ => 0), [], [])
  }

  // ---------------------------------------------------------------------
  // lower_bound and getEntry
  // ---------------------------------------------------------------------

  /**
   * `std::lower_bound(colid + lo, colid + hi, j)`: the first position in
   * [lo, hi) whose column is not below j, or hi. On a sorted range this is
   * the position the binary search finds.
   */
  function LowerBound(s: seq<nat>, lo: nat, hi: nat, j: nat): (k: nat)
    requires lo <= hi <= |s|
    ensures lo <= k <= hi
    ensures forall x :: lo <= x < k ==> s[x] < j
    ensures k < hi ==> s[k] >= j
    decreases hi - lo
  {
    if lo == hi || s[lo] >= j then lo else LowerBound(s, lo + 1, hi, j)
  }

  /**
   * `getEntry(i, j)`: the value stored at column j of row i, zero when the
   * lower bound of j in the row is past the end or holds another column.
   * This is the search path alone, the lookup `getEntry` is meant to be;
   * the `_triples` shortcut in front of it is CsrOps.GetEntryAsWritten.
   */
  function GetEntry(A: Csr, i: nat, j: nat): (r: int)
    requires Shaped(A) && i < A.rownb && j < A.colnb
    ensures r != 0 ==> exists k :: A.start[i] <= k < A.start[i + 1] && A.colid[k] == j && A.data[k] == r
    ensures (forall k :: A.start[i] <= k < A.start[i + 1] ==> A.colid[k] != j) ==> r == 0
  {
    var ibeg := A.start[i];
    var iend := A.start[i + 1];
    if ibeg == iend then 0
    else
      var low := LowerBound(A.colid, ibeg, iend, j);
      if low == iend || A.colid[low] != j then 0 else A.data[low]
  }

  /** On a valid matrix `getEntry` reads the abstract matrix. */
  lemma GetEntryReadsRow(A: Csr, i: nat, j: nat)
    requires Valid(A) && i < A.rownb && j < A.colnb
    ensures GetEntry(A, i, j) == Entry(A, i, j)
  {
    var row := RowOf(A, i);
    var ibeg := A.start[i];
    var iend := A.start[i + 1];
    if ibeg < iend {
      var low := LowerBound(A.colid, ibeg, iend, j);
      if low < iend && A.colid[low] == j {
        GetAt(row, low - ibeg);
      } else {
        forall x | 0 <= x < |row|
          ensures row[x].0 != j
        {
          if ibeg + x >= low {
            assert row[x].0 >= row[low - ibeg].0;
          }
        }
        GetAbsent(row, j);
      }
    } else {
      GetAbsent(row, j);
    }
  }

  // ---------------------------------------------------------------------
  // Inserting and erasing one position
  // ---------------------------------------------------------------------

  /**
   * Insert (j, e) at position p of row i: the vector inserts into `colid`
   * and `data`, `start[k] += 1` for i < k <= rownb, and `++_nbnz`.
   */
  function Insert(A: Csr, i: nat, p: nat, j: nat, e: int): (B: Csr)
    requires Shaped(A) && i < A.rownb && A.start[i] <= p <= A.start[i + 1]
    ensures Shaped(B) && B.rownb == A.rownb && B.colnb == A.colnb && B.nbnz == A.nbnz + 1
  {
    var B := A.(nbnz := A.nbnz + 1,
      start := seq(|A.start|, k requires 0 <= k < |A.start| => if i < k <= A.rownb then A.start[k] + 1 else A.start[k]),
      colid := A.colid[..p] + [j] + A.colid[p..],
      data := A.data[..p] + [e] + A.data[p..]);
    assert forall x, k :: 0 <= x <= k <= A.rownb ==> B.start[x] <= B.start[k] by {
      forall x, k | 0 <= x <= k <= A.rownb
        ensures B.start[x] <= B.start[k]
      {
        assert A.start[x] <= A.start[k];
      }
    }
    B
  }

  /**
   * Erase position p of row i: the vector erases, `start[k] -= 1` for
   * i < k <= rownb, and `--_nbnz`.
   */
  function Erase(A: Csr, i: nat, p: nat): (B: Csr)
    requires Shaped(A) && i < A.rownb && A.start[i] <= p < A.start[i + 1]
    ensures Shaped(B) && B.rownb == A.rownb && B.colnb == A.colnb && B.nbnz + 1 == A.nbnz
  {
    var B := A.(nbnz := A.nbnz - 1,
      start := seq(|A.start|, k requires 0 <= k < |A.start| => if i < k <= A.rownb then A.start[k] - 1 else A.start[k]),
      colid := A.colid[..p] + A.colid[p + 1..],
      data := A.data[..p] + A.data[p + 1..]);
    assert forall x, k :: 0 <= x <= k <= A.rownb ==> B.start[x] <= B.start[k] by {
      forall x, k | 0 <= x <= k <= A.rownb
        ensures B.start[x] <= B.start[k]
      {
        assert A.start[x] <= A.start[k];
        if x <= i < k {
          assert A.start[x] <= A.start[i] <= p < A.start[i + 1] <= A.start[k];
        }
      }
    }
    B
  }

  /** Rows other than i keep their entries under `Insert`; row i gains (j, e) at offset p - start[i]. */
  lemma InsertRows(A: Csr, i: nat, p: nat, j: nat, e: int, x: nat)
    requires Shaped(A) && i < A.rownb && A.start[i] <= p <= A.start[i + 1] && x < A.rownb
    ensures x != i ==> RowOf(Insert(A, i, p, j, e), x) == RowOf(A, x)
    ensures x == i ==>
      RowOf(Insert(A, i, p, j, e), x) == RowOf(A, i)[..p - A.start[i]] + [(j, e)] + RowOf(A, i)[p - A.start[i]..]
  {
    if x < i {
      InsertRowBefore(A, i, p, j, e, x);
    } else if x > i {
      InsertRowAfter(A, i, p, j, e, x);
    } else {
      InsertRowAt(A, i, p, j, e);
    }
  }

  lemma InsertRowBefore(A: Csr, i: nat, p: nat, j: nat, e: int, x: nat)
    requires Shaped(A) && i < A.rownb && A.start[i] <= p <= A.start[i + 1] && x < i
    ensures RowOf(Insert(A, i, p, j, e), x) == RowOf(A, x)
  {
    var B := Insert(A, i, p, j, e);
    var r, s := RowOf(B, x), RowOf(A, x);
    assert A.start[x + 1] <= A.start[i];
    assert B.start[x] == A.start[x] && B.start[x + 1] == A.start[x + 1];
    forall k | 0 <= k < |s|
      ensures r[k] == s[k]
    {
      assert A.start[x] + k < p;
    }
  }

  lemma InsertRowAfter(A: Csr, i: nat, p: nat, j: nat, e: int, x: nat)
    requires Shaped(A) && i < x < A.rownb && A.start[i] <= p <= A.start[i + 1]
    ensures RowOf(Insert(A, i, p, j, e), x) == RowOf(A, x)
  {
    var B := Insert(A, i, p, j, e);
    var r, s := RowOf(B, x), RowOf(A, x);
    assert A.start[i + 1] <= A.start[x];
    assert B.start[x] == A.start[x] + 1 && B.start[x + 1] == A.start[x + 1] + 1;
    forall k | 0 <= k < |s|
      ensures r[k] == s[k]
    {
      assert A.start[x] + k >= p;
    }
  }

  /** Position k of the storage after `Insert`: shifted up by one past p, (j, e) at p. */
  lemma InsertStorage(A: Csr, i: nat, p: nat, j: nat, e: int, k: nat)
    requires Shaped(A) && i < A.rownb && A.start[i] <= p <= A.start[i + 1] && k <= A.nbnz
    ensures Insert(A, i, p, j, e).colid[k] == if k < p then A.colid[k] else if k == p then j else A.colid[k - 1]
    ensures Insert(A, i, p, j, e).data[k] == if k < p then A.data[k] else if k == p then e else A.data[k - 1]
  {
  }

  lemma InsertRowAt(A: Csr, i: nat, p: nat, j: nat, e: int)
    requires Shaped(A) && i < A.rownb && A.start[i] <= p <= A.start[i + 1]
    ensures RowOf(Insert(A, i, p, j, e), i) == RowOf(A, i)[..p - A.start[i]] + [(j, e)] + RowOf(A, i)[p - A.start[i]..]
  {
    var B := Insert(A, i, p, j, e);
    var r, s := RowOf(B, i), RowOf(A, i);
    assert B.start[i] == A.start[i] && B.start[i + 1] == A.start[i + 1] + 1;
    var q := p - A.start[i];
    var t := s[..q] + [(j, e)] + s[q..];
    forall k | 0 <= k < |t|
      ensures r[k] == t[k]
    {
      InsertStorage(A, i, p, j, e, A.start[i] + k);
      if k < q {
        assert t[k] == s[k];
      } else if k > q {
        assert t[k] == s[k - 1];
      }
    }
  }

  /** Rows other than i keep their entries under `Erase`; row i loses offset p - start[i]. */
  lemma EraseRows(A: Csr, i: nat, p: nat, x: nat)
    requires Shaped(A) && i < A.rownb && A.start[i] <= p < A.start[i + 1] && x < A.rownb
    ensures x != i ==> RowOf(Erase(A, i, p), x) == RowOf(A, x)
    ensures x == i ==> RowOf(Erase(A, i, p), x) == RowOf(A, i)[..p - A.start[i]] + RowOf(A, i)[p - A.start[i] + 1..]
  {
    if x < i {
      EraseRowBefore(A, i, p, x);
    } else if x > i {
      EraseRowAfter(A, i, p, x);
    } else {
      EraseRowAt(A, i, p);
    }
  }

  lemma EraseRowBefore(A: Csr, i: nat, p: nat, x: nat)
    requires Shaped(A) && i < A.rownb && A.start[i] <= p < A.start[i + 1] && x < i
    ensures RowOf(Erase(A, i, p), x) == RowOf(A, x)
  {
    var B := Erase(A, i, p);
    var r, s := RowOf(B, x), RowOf(A, x);
    assert A.start[x + 1] <= A.start[i];
    assert B.start[x] == A.start[x] && B.start[x + 1] == A.start[x + 1];
    forall k | 0 <= k < |s|
      ensures r[k] == s[k]
    {
      assert A.start[x] + k < p;
    }
  }

  lemma EraseRowAfter(A: Csr, i: nat, p: nat, x: nat)
    requires Shaped(A) && i < x < A.rownb && A.start[i] <= p < A.start[i + 1]
    ensures RowOf(Erase(A, i, p), x) == RowOf(A, x)
  {
    var B := Erase(A, i, p);
    var r, s := RowOf(B, x), RowOf(A, x);
    assert A.start[i + 1] <= A.start[x];
    assert B.start[x] == A.start[x] - 1 && B.start[x + 1] == A.start[x + 1] - 1;
    forall k | 0 <= k < |s|
      ensures r[k] == s[k]
    {
      assert A.start[x] + k > p;
    }
  }

  lemma EraseRowAt(A: Csr, i: nat, p: nat)
    requires Shaped(A) && i < A.rownb && A.start[i] <= p < A.start[i + 1]
    ensures RowOf(Erase(A, i, p), i) == RowOf(A, i)[..p - A.start[i]] + RowOf(A, i)[p - A.start[i] + 1..]
  {
    var B := Erase(A, i, p);
    var r, s := RowOf(B, i), RowOf(A, i);
    assert B.start[i] == A.start[i] && B.start[i + 1] == A.start[i + 1] - 1;
    var q := p - A.start[i];
    var t := s[..q] + s[q + 1..];
    forall k | 0 <= k < |t|
      ensures r[k] == t[k]
    {
      if k >= q {
        assert t[k] == s[k + 1];
      }
    }
  }

  /** Overwrite the value at position p: the replace branch of `setEntry`. */
  function Replace(A: Csr, p: nat, e: int): (B: Csr)
    requires Shaped(A) && p < A.nbnz
    ensures Shaped(B) && B.rownb == A.rownb && B.colnb == A.colnb && B.nbnz == A.nbnz
  {
    A.(data := A.data[p := e])
  }

  lemma ReplaceRows(A: Csr, i: nat, p: nat, e: int, x: nat)
    requires Shaped(A) && i < A.rownb && A.start[i] <= p < A.start[i + 1] && x < A.rownb
    ensures x != i ==> RowOf(Replace(A, p, e), x) == RowOf(A, x)
    ensures x == i ==> RowOf(Replace(A, p, e), x) == RowOf(A, i)[p - A.start[i] := (A.colid[p], e)]
  {
    var r, s := RowOf(Replace(A, p, e), x), RowOf(A, x);
    if x < i {
      assert A.start[x + 1] <= A.start[i];
    } else if x > i {
      assert A.start[i + 1] <= A.start[x];
    }
    if x != i {
      forall k | 0 <= k < |s|
        ensures r[k] == s[k]
      {
        assert A.start[x] + k != p;
      }
    }
  }

  // ---------------------------------------------------------------------
  // setEntry and clearEntry
  // ---------------------------------------------------------------------

  /**
   * `clearEntry(i, j)` as written: erase the position lower_bound finds for j
   * in row i whenever it is inside the row, without checking that it holds
   * column j.
   */
  function ClearEntryAsWritten(A: Csr, i: nat, j: nat): (B: Csr)
    requires Shaped(A) && i < A.rownb && j < A.colnb
    ensures Shaped(B) && B.rownb == A.rownb && B.colnb == A.colnb
  {
    var ibeg := A.start[i];
    var iend := A.start[i + 1];
    if ibeg == iend then A
    else
      var low := LowerBound(A.colid, ibeg, iend, j);
      if low == iend then A else Erase(A, i, low)
  }

  /** With column 1 stored and column 0 absent, clearing (0, 0) erases the entry at (0, 1). */
  lemma ClearEntryAsWrittenErasesNeighbour()
    ensures var A := Csr(1, 2, 1, [0, 1], [1], [5]);
      && Valid(A) && Entry(A, 0, 0) == 0 && Entry(A, 0, 1) == 5
      && Entry(ClearEntryAsWritten(A, 0, 0), 0, 1) == 0
  {
    var A := Csr(1, 2, 1, [0, 1], [1], [5]);
    assert RowOf(A, 0) == [(1, 5)];
    var B := ClearEntryAsWritten(A, 0, 0);
    assert B.start[0] == 0 && B.start[1] == 0;
    assert RowOf(B, 0) == [];
  }

  /** `clearEntry(i, j)` erasing only when lower_bound lands on column j itself. */
  function ClearEntry(A: Csr, i: nat, j: nat): (B: Csr)
    requires Shaped(A) && i < A.rownb && j < A.colnb
    ensures Shaped(B) && B.rownb == A.rownb && B.colnb == A.colnb
  {
    var ibeg := A.start[i];
    var iend := A.start[i + 1];
    if ibeg == iend then A
    else
      var low := LowerBound(A.colid, ibeg, iend, j);
      if low == iend || A.colid[low] != j then A else Erase(A, i, low)
  }

  /**
   * `setEntry(i, j, e)` with the corrected `clearEntry`: a zero clears the
   * entry; otherwise lower_bound either finds column j, whose value is
   * replaced, or gives the position where (j, e) is inserted. The source
   * sends a zero to the unchecked `clearEntry`: see SetEntryAsWritten.
   */
  function SetEntry(A: Csr, i: nat, j: nat, e: int): (B: Csr)
    requires Shaped(A) && i < A.rownb && j < A.colnb
    ensures Shaped(B) && B.rownb == A.rownb && B.colnb == A.colnb
  {
    if e == 0 then ClearEntry(A, i, j)
    else
      var ibeg := A.start[i];
      var iend := A.start[i + 1];
      if ibeg == iend then Insert(A, i, ibeg, j, e)
      else
        var low := LowerBound(A.colid, ibeg, iend, j);
        if low == iend || A.colid[low] != j then Insert(A, i, low, j, e)
        else Replace(A, low, e)
  }

  /**
   * Row i stores no column j but some column above it: the one case in
   * which `clearEntry(i, j)` as written erases an entry, the first column
   * above j.
   */
  predicate NeighbourAbove(A: Csr, i: nat, j: nat)
    requires Shaped(A) && i < A.rownb
  {
    && (forall p :: A.start[i] <= p < A.start[i + 1] ==> A.colid[p] != j)
    && exists p :: A.start[i] <= p < A.start[i + 1] && A.colid[p] > j
  }

  /** The two readings of `clearEntry(i, j)` differ exactly when row i lacks j but stores a column above it. */
  lemma ClearEntryAsWrittenAgrees(A: Csr, i: nat, j: nat)
    requires Valid(A) && i < A.rownb && j < A.colnb
    ensures ClearEntryAsWritten(A, i, j) == ClearEntry(A, i, j) <==> !NeighbourAbove(A, i, j)
  {
    var ibeg, iend := A.start[i], A.start[i + 1];
    if ibeg < iend {
      var low := LowerBound(A.colid, ibeg, iend, j);
      if low < iend && A.colid[low] != j {
        var s := RowOf(A, i);
        forall p | ibeg <= p < iend
          ensures A.colid[p] != j
        {
          if p > low {
            assert s[low - ibeg].0 < s[p - ibeg].0;
          }
        }
        assert Erase(A, i, low).nbnz != A.nbnz;
      }
    }
  }

  /**
   * `setEntry(i, j, e)` as written: a zero goes to the unchecked
   * `clearEntry`, any other value is stored as SetEntry stores it.
   */
  function SetEntryAsWritten(A: Csr, i: nat, j: nat, e: int): (B: Csr)
    requires Shaped(A) && i < A.rownb && j < A.colnb
    ensures Shaped(B) && B.rownb == A.rownb && B.colnb == A.colnb
  {
    if e == 0 then ClearEntryAsWritten(A, i, j) else SetEntry(A, i, j, e)
  }

  /** `setEntry` as written is the corrected one except when it clears an absent j below a stored column. */
  lemma SetEntryAsWrittenAgrees(A: Csr, i: nat, j: nat, e: int)
    requires Valid(A) && i < A.rownb && j < A.colnb
    ensures SetEntryAsWritten(A, i, j, e) == SetEntry(A, i, j, e) <==> e != 0 || !NeighbourAbove(A, i, j)
  {
    ClearEntryAsWrittenAgrees(A, i, j);
  }

  /** `setEntry(0, 0, 0)` on the matrix storing only (0, 1) = 5 erases that entry; the corrected setEntry keeps it. */
  lemma SetEntryAsWrittenErasesNeighbour()
    ensures var A := Csr(1, 2, 1, [0, 1], [1], [5]);
      && Entry(SetEntryAsWritten(A, 0, 0, 0), 0, 1) == 0
      && Entry(SetEntry(A, 0, 0, 0), 0, 1) == 5
  {
    var A := Csr(1, 2, 1, [0, 1], [1], [5]);
    ClearEntryAsWrittenErasesNeighbour();
    SetEntryUpdates(A, 0, 0, 0);
  }

  /** B agrees with A on every row but i, and row i of B is `row`. */
  predicate RowUpdate(A: Csr, B: Csr, i: nat, row: Row)
  {
    && Shaped(A) && Shaped(B) && i < A.rownb
    && B.rownb == A.rownb && B.colnb == A.colnb
    && RowOf(B, i) == row
    && forall x :: 0 <= x < A.rownb && x != i ==> RowOf(B, x) == RowOf(A, x)
  }

  /** Changing one row into a sorted row that differs at column j only changes entry (i, j). */
  lemma RowUpdateEntries(A: Csr, B: Csr, i: nat, row: Row, j: nat, v: int)
    requires Valid(A) && RowUpdate(A, B, i, row) && Sorted(row) && ColsBelow(row, A.colnb)
    requires Get(row, j) == v && forall y :: y != j ==> Get(row, y) == Get(RowOf(A, i), y)
    ensures Valid(B)
    ensures forall x, y :: 0 <= x < A.rownb ==> Entry(B, x, y) == if x == i && y == j then v else Entry(A, x, y)
  {
  }

  /** Inserting (j, e) where lower_bound puts it. */
  lemma InsertUpdate(A: Csr, i: nat, low: nat, j: nat, e: int) returns (row: Row)
    requires Valid(A) && i < A.rownb && j < A.colnb && A.start[i] <= low <= A.start[i + 1]
    requires forall x :: A.start[i] <= x < low ==> A.colid[x] < j
    requires low < A.start[i + 1] ==> A.colid[low] > j
    ensures RowUpdate(A, Insert(A, i, low, j, e), i, row) && Sorted(row) && ColsBelow(row, A.colnb)
    ensures Get(row, j) == e && forall y :: y != j ==> Get(row, y) == Get(RowOf(A, i), y)
    ensures NoZeros(RowOf(A, i)) && e != 0 ==> NoZeros(row)
  {
    var s := RowOf(A, i);
    var q := low - A.start[i];
    InsertOthers(A, i, low, j, e);
    InsertRows(A, i, low, j, e, i);
    assert forall x :: 0 <= x < q ==> s[x].0 < j;
    row := InsertRow(s, q, j, e, A.colnb);
  }

  /** Row-level facts of the insertion: sorted, in range, reads e at j and the old values elsewhere. */
  lemma InsertRow(s: Row, q: nat, j: nat, e: int, n: nat) returns (row: Row)
    requires Sorted(s) && ColsBelow(s, n) && j < n && q <= |s|
    requires forall x :: 0 <= x < q ==> s[x].0 < j
    requires q < |s| ==> s[q].0 > j
    ensures row == s[..q] + [(j, e)] + s[q..]
    ensures Sorted(row) && ColsBelow(row, n)
    ensures Get(row, j) == e && forall y :: y != j ==> Get(row, y) == Get(s, y)
    ensures NoZeros(s) && e != 0 ==> NoZeros(row)
  {
    row := s[..q] + [(j, e)] + s[q..];
    InsertAt(s, q, (j, e));
    assert forall x :: 0 <= x < q ==> row[x] == s[x];
    assert forall x :: q < x < |row| ==> row[x] == s[x - 1];
  }

  lemma InsertOthers(A: Csr, i: nat, p: nat, j: nat, e: int)
    requires Shaped(A) && i < A.rownb && A.start[i] <= p <= A.start[i + 1]
    ensures forall x :: 0 <= x < A.rownb && x != i ==> RowOf(Insert(A, i, p, j, e), x) == RowOf(A, x)
  {
    forall x | 0 <= x < A.rownb && x != i
      ensures RowOf(Insert(A, i, p, j, e), x) == RowOf(A, x)
    {
      InsertRows(A, i, p, j, e, x);
    }
  }

  /** Replacing the value of the stored column j. */
  lemma ReplaceUpdate(A: Csr, i: nat, low: nat, e: int) returns (row: Row)
    requires Valid(A) && i < A.rownb && A.start[i] <= low < A.start[i + 1]
    ensures RowUpdate(A, Replace(A, low, e), i, row) && Sorted(row) && ColsBelow(row, A.colnb)
    ensures Get(row, A.colid[low]) == e && forall y :: y != A.colid[low] ==> Get(row, y) == Get(RowOf(A, i), y)
    ensures NoZeros(RowOf(A, i)) && e != 0 ==> NoZeros(row)
  {
    var s := RowOf(A, i);
    var q := low - A.start[i];
    forall x | 0 <= x < A.rownb
      ensures x != i ==> RowOf(Replace(A, low, e), x) == RowOf(A, x)
    {
      ReplaceRows(A, i, low, e, x);
    }
    ReplaceRows(A, i, low, e, i);
    assert s[q].0 == A.colid[low];
    row := s[q := (s[q].0, e)];
    ReplaceAt(s, q, e);
  }

  /** Erasing the stored column at position low. */
  lemma EraseUpdate(A: Csr, i: nat, low: nat) returns (row: Row)
    requires Valid(A) && i < A.rownb && A.start[i] <= low < A.start[i + 1]
    ensures RowUpdate(A, Erase(A, i, low), i, row) && Sorted(row) && ColsBelow(row, A.colnb)
    ensures Get(row, A.colid[low]) == 0 && forall y :: y != A.colid[low] ==> Get(row, y) == Get(RowOf(A, i), y)
    ensures NoZeros(RowOf(A, i)) ==> NoZeros(row)
  {
    var s := RowOf(A, i);
    var q := low - A.start[i];
    forall x | 0 <= x < A.rownb
      ensures x != i ==> RowOf(Erase(A, i, low), x) == RowOf(A, x)
    {
      EraseRows(A, i, low, x);
    }
    EraseRows(A, i, low, i);
    assert s[q].0 == A.colid[low];
    row := s[..q] + s[q + 1..];
    RemoveAt(s, q);
  }

  /** In a sorted row, a lower bound that is past the end or holds another column means j is absent. */
  lemma LowerBoundMiss(A: Csr, i: nat, j: nat, low: nat)
    requires Valid(A) && i < A.rownb && A.start[i] <= low <= A.start[i + 1]
    requires forall x :: A.start[i] <= x < low ==> A.colid[x] < j
    requires low < A.start[i + 1] ==> A.colid[low] > j
    ensures Get(RowOf(A, i), j) == 0
  {
    var s := RowOf(A, i);
    var ibeg := A.start[i];
    forall x | 0 <= x < |s|
      ensures s[x].0 != j
    {
      if ibeg + x >= low {
        assert s[x].0 >= s[low - ibeg].0;
      }
    }
    GetAbsent(s, j);
  }

  /** The row i of `setEntry` and the value column j ends with. */
  lemma SetEntryRow(A: Csr, i: nat, j: nat, e: int) returns (row: Row)
    requires Valid(A) && i < A.rownb && j < A.colnb
    ensures RowUpdate(A, SetEntry(A, i, j, e), i, row) && Sorted(row) && ColsBelow(row, A.colnb)
    ensures Get(row, j) == e && forall y :: y != j ==> Get(row, y) == Get(RowOf(A, i), y)
    ensures NoZeros(RowOf(A, i)) ==> NoZeros(row)
  {
    var ibeg := A.start[i];
    var iend := A.start[i + 1];
    if e == 0 {
      row := ClearEntryRow(A, i, j);
    } else {
      var low := if ibeg == iend then ibeg else LowerBound(A.colid, ibeg, iend, j);
      if low == iend || A.colid[low] != j {
        row := InsertUpdate(A, i, low, j, e);
      } else {
        row := ReplaceUpdate(A, i, low, e);
      }
    }
  }

  /** The row i of the corrected `clearEntry`: column j removed when stored, nothing else. */
  lemma ClearEntryRow(A: Csr, i: nat, j: nat) returns (row: Row)
    requires Valid(A) && i < A.rownb && j < A.colnb
    ensures RowUpdate(A, ClearEntry(A, i, j), i, row) && Sorted(row) && ColsBelow(row, A.colnb)
    ensures Get(row, j) == 0 && forall y :: y != j ==> Get(row, y) == Get(RowOf(A, i), y)
    ensures NoZeros(RowOf(A, i)) ==> NoZeros(row)
  {
    var ibeg := A.start[i];
    var iend := A.start[i + 1];
    var low := if ibeg == iend then ibeg else LowerBound(A.colid, ibeg, iend, j);
    if low == iend || A.colid[low] != j {
      LowerBoundMiss(A, i, j, low);
      row := RowOf(A, i);
    } else {
      row := EraseUpdate(A, i, low);
    }
  }

  /** After `setEntry(i, j, e)` the matrix reads e at (i, j) and its old entries elsewhere, and stays valid. */
  lemma SetEntryUpdates(A: Csr, i: nat, j: nat, e: int)
    requires Valid(A) && i < A.rownb && j < A.colnb
    ensures Valid(SetEntry(A, i, j, e))
    ensures forall x, y :: 0 <= x < A.rownb ==>
      Entry(SetEntry(A, i, j, e), x, y) == if x == i && y == j then e else Entry(A, x, y)
    ensures ZeroFree(A) ==> ZeroFree(SetEntry(A, i, j, e))
  {
    var row := SetEntryRow(A, i, j, e);
    RowUpdateEntries(A, SetEntry(A, i, j, e), i, row, j, e);
  }

  /** After the corrected `clearEntry(i, j)` the matrix reads 0 at (i, j) and its old entries elsewhere. */
  lemma ClearEntryClears(A: Csr, i: nat, j: nat)
    requires Valid(A) && i < A.rownb && j < A.colnb
    ensures Valid(ClearEntry(A, i, j))
    ensures forall x, y :: 0 <= x < A.rownb ==>
      Entry(ClearEntry(A, i, j), x, y) == if x == i && y == j then 0 else Entry(A, x, y)
    ensures ZeroFree(A) ==> ZeroFree(ClearEntry(A, i, j))
  {
    var row := ClearEntryRow(A, i, j);
    RowUpdateEntries(A, ClearEntry(A, i, j), i, row, j, 0);
  }

  // ---------------------------------------------------------------------
  // Building a matrix from its rows
  // ---------------------------------------------------------------------

  /** The rows laid end to end. */
  function Flatten(rows: seq<Row>): (f: Row)
    ensures |f| == TotalLen(rows)
  {
    if |rows| == 0 then [] else Flatten(rows[..|rows| - 1]) + rows[|rows| - 1]
  }

  function TotalLen(rows: seq<Row>): nat
  {
    if |rows| == 0 then 0 else TotalLen(rows[..|rows| - 1]) + |rows[|rows| - 1]|
  }

  /** The flattening of a prefix of the rows is a prefix of the flattening. */
  lemma {:induction false} FlattenPrefix(rows: seq<Row>, k: nat)
    requires k <= |rows|
    ensures TotalLen(rows[..k]) <= TotalLen(rows)
    ensures Flatten(rows)[..TotalLen(rows[..k])] == Flatten(rows[..k])
    decreases |rows| - k
  {
    if k < |rows| {
      FlattenPrefix(rows[..|rows| - 1], k);
      assert rows[..|rows| - 1][..k] == rows[..k];
    } else {
      assert rows[..k] == rows;
    }
  }

  /** Row i of the flattening sits between the lengths of the first i and i + 1 rows. */
  lemma FlattenSlice(rows: seq<Row>, i: nat)
    requires i < |rows|
    ensures TotalLen(rows[..i]) + |rows[i]| == TotalLen(rows[..i + 1]) <= TotalLen(rows)
    ensures Flatten(rows)[TotalLen(rows[..i])..TotalLen(rows[..i + 1])] == rows[i]
  {
    FlattenPrefix(rows, i + 1);
    assert rows[..i + 1][..i] == rows[..i];
    var f := Flatten(rows[..i + 1]);
    assert f == Flatten(rows[..i]) + rows[i];
  }

  /** Lengths of prefixes never decrease. */
  lemma {:induction false} TotalLenMonotone(rows: seq<Row>, a: nat, b: nat)
    requires a <= b <= |rows|
    ensures TotalLen(rows[..a]) <= TotalLen(rows[..b])
    decreases b - a
  {
    if a < b {
      TotalLenMonotone(rows, a, b - 1);
      assert rows[..b][..b - 1] == rows[..b - 1];
    }
  }

  /** The m x n matrix whose row i is rows[i]: start holds the prefix lengths. */
  function FromRows(m: nat, n: nat, rows: seq<Row>): (A: Csr)
    requires |rows| == m
    ensures Shaped(A) && A.rownb == m && A.colnb == n && A.nbnz == TotalLen(rows)
    ensures forall i :: 0 <= i < m ==> RowOf(A, i) == rows[i]
  {
    FromRowsShaped(m, n, rows);
    FromRowsContent(m, n, rows);
    Layout(m, n, rows)
  }

  function Layout(m: nat, n: nat, rows: seq<Row>): Csr
  {
    var f := Flatten(rows);
    Csr(m, n, |f|, seq(m + 1, k requires 0 <= k <= m => if k <= |rows| then TotalLen(rows[..k]) else 0),
      seq(|f|, k requires 0 <= k < |f| => f[k].0), seq(|f|, k requires 0 <= k < |f| => f[k].1))
  }

  lemma FromRowsShaped(m: nat, n: nat, rows: seq<Row>)
    requires |rows| == m
    ensures Shaped(Layout(m, n, rows)) && Layout(m, n, rows).nbnz == TotalLen(rows)
  {
    var A := Layout(m, n, rows);
    assert rows[..m] == rows;
    forall i, k | 0 <= i <= k <= m
      ensures A.start[i] <= A.start[k]
    {
      TotalLenMonotone(rows, i, k);
    }
  }

  lemma FromRowsContent(m: nat, n: nat, rows: seq<Row>)
    requires |rows| == m && Shaped(Layout(m, n, rows))
    ensures forall i :: 0 <= i < m ==> RowOf(Layout(m, n, rows), i) == rows[i]
  {
    var A := Layout(m, n, rows);
    var f := Flatten(rows);
    forall i | 0 <= i < m
      ensures RowOf(A, i) == rows[i]
    {
      FlattenSlice(rows, i);
      var b := TotalLen(rows[..i]);
      assert A.start[i] == b && A.start[i + 1] == TotalLen(rows[..i + 1]);
      assert forall x :: 0 <= x < |rows[i]| ==> rows[i][x] == f[b + x];
    }
  }

  /** A matrix built from sorted rows with columns below n is valid. */
  lemma FromRowsValid(m: nat, n: nat, rows: seq<Row>)
    requires |rows| == m
    requires forall i :: 0 <= i < m ==> Sorted(rows[i]) && ColsBelow(rows[i], n)
    ensures Valid(FromRows(m, n, rows))
    ensures forall i, j :: 0 <= i < m ==> Entry(FromRows(m, n, rows), i, j) == Get(rows[i], j)
  {
  }
}
