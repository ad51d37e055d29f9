/**
 * The COO sparse matrix: three parallel vectors `rowid`, `colid`, `data`
 * of length nbnz, one triple per stored entry. `setEntry`, `clearEntry`
 * and `getEntry` assume the triples are sorted by row (they search the row
 * with `std::equal_range` on `rowid` and then `std::lower_bound` on the
 * row's columns); the sorted form kept here is `Ordered`: strictly
 * increasing in (row, column) order.
 *
 * The abstract matrix is `Lookup(A, i, j)`: the value of the first triple
 * holding (i, j), zero if none does.
 */
module CooMatrix {
  import CsrMatrix
  import CsrOps

  /** The fields `_rownb`, `_colnb`, `_nbnz`, `_rowid`, `_colid`, `_data`. */
  datatype Coo = Coo(rownb: nat, colnb: nat, nbnz: nat, rowid: seq<nat>, colid: seq<nat>, data: seq<int>)

  /** The three vectors all have nbnz elements. */
  predicate Consistent(A: Coo)
  {
    |A.rowid| == A.nbnz && |A.colid| == A.nbnz && |A.data| == A.nbnz
  }

  /** (r1, c1) comes strictly before (r2, c2) in row-major order. */
  predicate Before(r1: nat, c1: nat, r2: nat, c2: nat)
  {
    r1 < r2 || (r1 == r2 && c1 < c2)
  }

  /** Consistent, every index in range, and the triples strictly increasing in row-major order. */
  predicate Ordered(A: Coo)
  {
    && Consistent(A)
    && (forall p :: 0 <= p < A.nbnz ==> A.rowid[p] < A.rownb && A.colid[p] < A.colnb)
    && (forall p, q :: 0 <= p < q < A.nbnz ==> Before(A.rowid[p], A.colid[p], A.rowid[q], A.colid[q]))
  }

  predicate ZeroFree(A: Coo)
    requires Consistent(A)
  {
    forall p :: 0 <= p < A.nbnz ==> A.data[p] != 0
  }

  /** Position p holds (i, j). */
  predicate Holds(A: Coo, p: nat, i: nat, j: nat)
    requires Consistent(A)
  {
    p < A.nbnz && A.rowid[p] == i && A.colid[p] == j
  }

  /** The abstract entry (i, j): the value of the first triple holding (i, j), zero if none does. */
  function Lookup(A: Coo, i: nat, j: nat): int
    requires Consistent(A)
  {
    LookupFrom(A, i, j, 0)
  }

  function LookupFrom(A: Coo, i: nat, j: nat, p: nat): int
    requires Consistent(A)
    decreases A.nbnz - p
  {
    if p >= A.nbnz then 0
    else if A.rowid[p] == i && A.colid[p] == j then A.data[p]
    else LookupFrom(A, i, j, p + 1)
  }

  /** In an ordered matrix, each stored triple is what the matrix reads at its position. */
  lemma LookupAt(A: Coo, p: nat)
    requires Ordered(A) && p < A.nbnz
    ensures Lookup(A, A.rowid[p], A.colid[p]) == A.data[p]
  {
    LookupFromAt(A, p, 0);
  }

  lemma {:induction false} LookupFromAt(A: Coo, p: nat, s: nat)
    requires Ordered(A) && s <= p < A.nbnz
    ensures LookupFrom(A, A.rowid[p], A.colid[p], s) == A.data[p]
    decreases p - s
  {
    if s < p {
      assert Before(A.rowid[s], A.colid[s], A.rowid[p], A.colid[p]);
      LookupFromAt(A, p, s + 1);
    }
  }

  /** A pair no triple holds reads zero. */
  lemma LookupAbsent(A: Coo, i: nat, j: nat)
    requires Consistent(A)
    requires forall q :: 0 <= q < A.nbnz ==> !Holds(A, q, i, j)
    ensures Lookup(A, i, j) == 0
  {
    LookupFromAbsent(A, i, j, 0);
  }

  lemma {:induction false} LookupFromAbsent(A: Coo, i: nat, j: nat, s: nat)
    requires Consistent(A)
    requires forall q :: 0 <= q < A.nbnz ==> !Holds(A, q, i, j)
    ensures LookupFrom(A, i, j, s) == 0
    decreases A.nbnz - s
  {
    if s < A.nbnz {
      assert !Holds(A, s, i, j);
      LookupFromAbsent(A, i, j, s + 1);
    }
  }

  // ---------------------------------------------------------------------
  // appendEntry and setTriple
  // ---------------------------------------------------------------------

  /** `appendEntry(i, j, e)`: a zero is ignored; otherwise the triple is pushed at the end. */
  function AppendEntry(A: Coo, i: nat, j: nat, e: int): (B: Coo)
    requires i < A.rownb && j < A.colnb
  {
    if e == 0 then A
    else A.(rowid := A.rowid + [i], colid := A.colid + [j], data := A.data + [e], nbnz := A.nbnz + 1)
  }

  /**
   * Appending in row-major order keeps a matrix ordered: a zero changes
   * nothing, and a non-zero e makes (i, j) read e and leaves every other
   * entry as it was.
   */
  lemma AppendEntryUpdates(A: Coo, i: nat, j: nat, e: int)
    requires Ordered(A) && i < A.rownb && j < A.colnb
    requires A.nbnz > 0 ==> Before(A.rowid[A.nbnz - 1], A.colid[A.nbnz - 1], i, j)
    ensures Ordered(AppendEntry(A, i, j, e))
    ensures Lookup(AppendEntry(A, i, j, e), i, j) == e
    ensures forall x, y :: x != i || y != j ==> Lookup(AppendEntry(A, i, j, e), x, y) == Lookup(A, x, y)
    ensures ZeroFree(A) ==> ZeroFree(AppendEntry(A, i, j, e))
  {
    if e == 0 {
      forall q | 0 <= q < A.nbnz
        ensures !Holds(A, q, i, j)
      {
        if q < A.nbnz - 1 {
          assert Before(A.rowid[q], A.colid[q], A.rowid[A.nbnz - 1], A.colid[A.nbnz - 1]);
        }
      }
      LookupAbsent(A, i, j);
    } else {
      forall q | 0 <= q < A.nbnz
        ensures Before(A.rowid[q], A.colid[q], i, j)
      {
        if q < A.nbnz - 1 {
          assert Before(A.rowid[q], A.colid[q], A.rowid[A.nbnz - 1], A.colid[A.nbnz - 1]);
        }
      }
      InsertUpdates(A, A.nbnz, i, j, e);
      assert InsertAt(A, A.nbnz, i, j, e) == AppendEntry(A, i, j, e);
    }
  }

  /**
   * `setTriple(loc, i, j, e)`: with loc = nbnz the triple is pushed at the
   * end (a zero too); with loc < nbnz it overwrites position loc in place.
   */
  function SetTriple(A: Coo, loc: nat, i: nat, j: nat, e: int): (B: Coo)
    requires Consistent(A) && loc <= A.nbnz
    ensures Consistent(B) && B.rownb == A.rownb && B.colnb == A.colnb
    ensures B.nbnz == if loc == A.nbnz then A.nbnz + 1 else A.nbnz
    ensures B.rowid[loc] == i && B.colid[loc] == j && B.data[loc] == e
    ensures forall p :: 0 <= p < A.nbnz && p != loc ==> B.rowid[p] == A.rowid[p] && B.colid[p] == A.colid[p] && B.data[p] == A.data[p]
  {
    if loc == A.nbnz then
      A.(rowid := A.rowid + [i], colid := A.colid + [j], data := A.data + [e], nbnz := A.nbnz + 1)
    else
      A.(rowid := A.rowid[loc := i], colid := A.colid[loc := j], data := A.data[loc := e])
  }

  /** The triples (row, column, value) in storage order. */
  function Triples(A: Coo): (t: seq<(nat, nat, int)>)
    requires Consistent(A)
    ensures |t| == A.nbnz
  {
    seq(A.nbnz, p requires 0 <= p < A.nbnz && Consistent(A) => (A.rowid[p], A.colid[p], A.data[p]))
  }

  /** Writing ts[k] at position k, for k = 0, 1, ..., into an empty m x n matrix. */
  function SetTriples(m: nat, n: nat, ts: seq<(nat, nat, int)>): (A: Coo)
    ensures Consistent(A) && A.nbnz == |ts|
  {
    if |ts| == 0 then Coo(m, n, 0, [], [], [])
    else
      var t := ts[|ts| - 1];
      SetTriple(SetTriples(m, n, ts[..|ts| - 1]), |ts| - 1, t.0, t.1, t.2)
  }

  /** Filling positions 0, 1, ... with `setTriple` stores exactly the given triples, in order. */
  lemma {:induction false} SetTriplesStores(m: nat, n: nat, ts: seq<(nat, nat, int)>)
    ensures Triples(SetTriples(m, n, ts)) == ts
    ensures SetTriples(m, n, ts).rownb == m && SetTriples(m, n, ts).colnb == n
  {
    if |ts| > 0 {
      var front := ts[..|ts| - 1];
      SetTriplesStores(m, n, front);
      var A := SetTriples(m, n, front);
      var B := SetTriples(m, n, ts);
      forall p | 0 <= p < |ts|
        ensures Triples(B)[p] == ts[p]
      {
        if p < |ts| - 1 {
          assert Triples(A)[p] == front[p];
        }
      }
    }
  }

  /** Overwriting a position with its own triple changes nothing. */
  lemma SetTripleSame(A: Coo, loc: nat)
    requires Consistent(A) && loc < A.nbnz
    ensures SetTriple(A, loc, A.rowid[loc], A.colid[loc], A.data[loc]) == A
  {
  }

  // ---------------------------------------------------------------------
  // Searching a row: equal_range and lower_bound
  // ---------------------------------------------------------------------

  /** `std::equal_range(rowid, i)`: the first position with a row of at least i ... */
  function RowBegin(A: Coo, i: nat): (b: nat)
    requires Consistent(A)
    ensures b <= A.nbnz
  {
    CsrMatrix.LowerBound(A.rowid, 0, A.nbnz, i)
  }

  /** ... and the first position with a row above i. */
  function RowEnd(A: Coo, i: nat): (b: nat)
    requires Consistent(A)
    ensures RowBegin(A, i) <= b <= A.nbnz
  {
    CsrMatrix.LowerBound(A.rowid, 0, A.nbnz, i + 1)
  }

  /** In an ordered matrix the rows never decrease. */
  lemma RowsNonDecreasing(A: Coo, p: nat, q: nat)
    requires Ordered(A) && p <= q < A.nbnz
    ensures A.rowid[p] <= A.rowid[q]
  {
    if p < q {
      assert Before(A.rowid[p], A.colid[p], A.rowid[q], A.colid[q]);
    }
  }

  /** In an ordered matrix, [RowBegin, RowEnd) is exactly the set of positions of row i. */
  lemma EqualRangeIsRow(A: Coo, i: nat)
    requires Ordered(A)
    ensures forall q :: 0 <= q < RowBegin(A, i) ==> A.rowid[q] < i
    ensures forall q :: RowBegin(A, i) <= q < RowEnd(A, i) ==> A.rowid[q] == i
    ensures forall q :: RowEnd(A, i) <= q < A.nbnz ==> A.rowid[q] > i
  {
    var b, e := RowBegin(A, i), RowEnd(A, i);
    forall q | b <= q < e
      ensures A.rowid[q] == i
    {
      RowsNonDecreasing(A, b, q);
    }
    forall q | e <= q < A.nbnz
      ensures A.rowid[q] > i
    {
      RowsNonDecreasing(A, e, q);
    }
  }

  /** The position where (i, j) is or would be inserted: lower_bound of j among row i's columns. */
  function Slot(A: Coo, i: nat, j: nat): (p: nat)
    requires Consistent(A)
    ensures RowBegin(A, i) <= p <= RowEnd(A, i)
  {
    CsrMatrix.LowerBound(A.colid, RowBegin(A, i), RowEnd(A, i), j)
  }

  /** Everything before the slot of (i, j) comes before (i, j), everything from it on after, except (i, j) itself. */
  lemma SlotSplits(A: Coo, i: nat, j: nat)
    requires Ordered(A)
    ensures forall q :: 0 <= q < Slot(A, i, j) ==> Before(A.rowid[q], A.colid[q], i, j)
    ensures forall q :: Slot(A, i, j) <= q < A.nbnz && !Holds(A, q, i, j) ==> Before(i, j, A.rowid[q], A.colid[q])
    ensures forall q :: 0 <= q < A.nbnz && Holds(A, q, i, j) ==> q == Slot(A, i, j)
  {
    EqualRangeIsRow(A, i);
    var s := Slot(A, i, j);
    forall q | s <= q < RowEnd(A, i)
      ensures A.colid[q] >= j
    {
      if s < q {
        assert Before(A.rowid[s], A.colid[s], A.rowid[q], A.colid[q]);
      }
    }
  }

  /** `getEntry(i, j)` without the `_triples` shortcut: search row i, read the slot if it holds column j. */
  function GetEntry(A: Coo, i: nat, j: nat): (r: int)
    requires Consistent(A) && i < A.rownb && j < A.colnb
    ensures r != 0 ==> exists p :: 0 <= p < A.nbnz && A.colid[p] == j && A.data[p] == r
  {
    var ibeg := RowBegin(A, i);
    var iend := RowEnd(A, i);
    if ibeg == iend then 0
    else
      var low := Slot(A, i, j);
      if low == iend || j != A.colid[low] then 0 else A.data[low]
  }

  /** On an ordered matrix `getEntry` reads the abstract matrix. */
  lemma GetEntryIsLookup(A: Coo, i: nat, j: nat)
    requires Ordered(A) && i < A.rownb && j < A.colnb
    ensures GetEntry(A, i, j) == Lookup(A, i, j)
  {
    EqualRangeIsRow(A, i);
    SlotSplits(A, i, j);
    var s := Slot(A, i, j);
    if s < A.nbnz && Holds(A, s, i, j) {
      LookupAt(A, s);
    } else {
      LookupAbsent(A, i, j);
    }
  }

  // ---------------------------------------------------------------------
  // Insertion, replacement and erasure at a position
  // ---------------------------------------------------------------------

  /** Insert (i, j, e) at position p of all three vectors. */
  function InsertAt(A: Coo, p: nat, i: nat, j: nat, e: int): (B: Coo)
    requires Consistent(A) && p <= A.nbnz
    ensures Consistent(B) && B.nbnz == A.nbnz + 1 && B.rownb == A.rownb && B.colnb == A.colnb
  {
    A.(rowid := A.rowid[..p] + [i] + A.rowid[p..], colid := A.colid[..p] + [j] + A.colid[p..],
       data := A.data[..p] + [e] + A.data[p..], nbnz := A.nbnz + 1)
  }

  /** Erase position p of all three vectors. */
  function EraseAt(A: Coo, p: nat): (B: Coo)
    requires Consistent(A) && p < A.nbnz
    ensures Consistent(B) && B.nbnz == A.nbnz - 1 && B.rownb == A.rownb && B.colnb == A.colnb
  {
    A.(rowid := A.rowid[..p] + A.rowid[p + 1..], colid := A.colid[..p] + A.colid[p + 1..],
       data := A.data[..p] + A.data[p + 1..], nbnz := A.nbnz - 1)
  }

  /** Where each triple of `InsertAt` comes from. */
  lemma InsertShift(A: Coo, p: nat, i: nat, j: nat, e: int, q: nat)
    requires Consistent(A) && p <= A.nbnz && q <= A.nbnz
    ensures var B := InsertAt(A, p, i, j, e);
      && (q < p ==> B.rowid[q] == A.rowid[q] && B.colid[q] == A.colid[q] && B.data[q] == A.data[q])
      && (q == p ==> B.rowid[q] == i && B.colid[q] == j && B.data[q] == e)
      && (q > p ==> B.rowid[q] == A.rowid[q - 1] && B.colid[q] == A.colid[q - 1] && B.data[q] == A.data[q - 1])
  {
  }

  /** Inserting (i, j, e) between its neighbours in row-major order keeps the order and updates only (i, j). */
  lemma InsertUpdates(A: Coo, p: nat, i: nat, j: nat, e: int)
    requires Ordered(A) && p <= A.nbnz && i < A.rownb && j < A.colnb
    requires forall q :: 0 <= q < p ==> Before(A.rowid[q], A.colid[q], i, j)
    requires forall q :: p <= q < A.nbnz ==> Before(i, j, A.rowid[q], A.colid[q])
    ensures Ordered(InsertAt(A, p, i, j, e))
    ensures Lookup(InsertAt(A, p, i, j, e), i, j) == e
    ensures forall x, y :: x != i || y != j ==> Lookup(InsertAt(A, p, i, j, e), x, y) == Lookup(A, x, y)
    ensures ZeroFree(A) && e != 0 ==> ZeroFree(InsertAt(A, p, i, j, e))
  {
    var B := InsertAt(A, p, i, j, e);
    InsertOrdered(A, p, i, j, e);
    InsertShift(A, p, i, j, e, p);
    LookupAt(B, p);
    forall x, y | x != i || y != j
      ensures Lookup(B, x, y) == Lookup(A, x, y)
    {
      if q :| 0 <= q < A.nbnz && Holds(A, q, x, y) {
        LookupAt(A, q);
        var q' := if q < p then q else q + 1;
        InsertShift(A, p, i, j, e, q');
        LookupAt(B, q');
      } else {
        LookupAbsent(A, x, y);
        forall q | 0 <= q < B.nbnz
          ensures !Holds(B, q, x, y)
        {
          InsertShift(A, p, i, j, e, q);
          if q < p {
            assert !Holds(A, q, x, y);
          } else if q > p {
            assert !Holds(A, q - 1, x, y);
          }
        }
        LookupAbsent(B, x, y);
      }
    }
    if ZeroFree(A) && e != 0 {
      forall q | 0 <= q < B.nbnz
        ensures B.data[q] != 0
      {
        InsertShift(A, p, i, j, e, q);
      }
    }
  }

  lemma InsertOrdered(A: Coo, p: nat, i: nat, j: nat, e: int)
    requires Ordered(A) && p <= A.nbnz && i < A.rownb && j < A.colnb
    requires forall q :: 0 <= q < p ==> Before(A.rowid[q], A.colid[q], i, j)
    requires forall q :: p <= q < A.nbnz ==> Before(i, j, A.rowid[q], A.colid[q])
    ensures Ordered(InsertAt(A, p, i, j, e))
  {
    var B := InsertAt(A, p, i, j, e);
    forall q | 0 <= q < B.nbnz
      ensures B.rowid[q] < B.rownb && B.colid[q] < B.colnb
    {
      InsertShift(A, p, i, j, e, q);
    }
    forall q, r | 0 <= q < r < B.nbnz
      ensures Before(B.rowid[q], B.colid[q], B.rowid[r], B.colid[r])
    {
      InsertShift(A, p, i, j, e, q);
      InsertShift(A, p, i, j, e, r);
      if q < p && p < r {
        assert Before(A.rowid[q], A.colid[q], i, j);
      }
    }
  }

  /** Overwriting the value at a position holding (i, j) keeps the order and updates only (i, j). */
  lemma ReplaceUpdates(A: Coo, p: nat, e: int)
    requires Ordered(A) && p < A.nbnz
    ensures Ordered(A.(data := A.data[p := e]))
    ensures Lookup(A.(data := A.data[p := e]), A.rowid[p], A.colid[p]) == e
    ensures forall x, y :: x != A.rowid[p] || y != A.colid[p] ==> Lookup(A.(data := A.data[p := e]), x, y) == Lookup(A, x, y)
    ensures ZeroFree(A) && e != 0 ==> ZeroFree(A.(data := A.data[p := e]))
  {
    var B := A.(data := A.data[p := e]);
    LookupAt(B, p);
    forall x, y | x != A.rowid[p] || y != A.colid[p]
      ensures Lookup(B, x, y) == Lookup(A, x, y)
    {
      if q :| 0 <= q < A.nbnz && Holds(A, q, x, y) {
        LookupAt(A, q);
        LookupAt(B, q);
      } else {
        LookupAbsent(A, x, y);
        assert forall q :: 0 <= q < B.nbnz ==> Holds(B, q, x, y) == Holds(A, q, x, y);
        LookupAbsent(B, x, y);
      }
    }
  }

  /** Where each triple of `EraseAt` comes from. */
  lemma EraseShift(A: Coo, p: nat, q: nat)
    requires Consistent(A) && p < A.nbnz && q < A.nbnz - 1
    ensures var B := EraseAt(A, p);
      && (q < p ==> B.rowid[q] == A.rowid[q] && B.colid[q] == A.colid[q] && B.data[q] == A.data[q])
      && (q >= p ==> B.rowid[q] == A.rowid[q + 1] && B.colid[q] == A.colid[q + 1] && B.data[q] == A.data[q + 1])
  {
  }

  lemma EraseOrdered(A: Coo, p: nat)
    requires Ordered(A) && p < A.nbnz
    ensures Ordered(EraseAt(A, p))
  {
    var B := EraseAt(A, p);
    forall q | 0 <= q < B.nbnz
      ensures B.rowid[q] < B.rownb && B.colid[q] < B.colnb
    {
      EraseShift(A, p, q);
    }
    forall q, r | 0 <= q < r < B.nbnz
      ensures Before(B.rowid[q], B.colid[q], B.rowid[r], B.colid[r])
    {
      EraseShift(A, p, q);
      EraseShift(A, p, r);
    }
  }

  /** Erasing a position keeps the order, makes its pair read zero and leaves every other entry as it was. */
  lemma EraseUpdates(A: Coo, p: nat)
    requires Ordered(A) && p < A.nbnz
    ensures Ordered(EraseAt(A, p))
    ensures Lookup(EraseAt(A, p), A.rowid[p], A.colid[p]) == 0
    ensures forall x, y :: x != A.rowid[p] || y != A.colid[p] ==> Lookup(EraseAt(A, p), x, y) == Lookup(A, x, y)
    ensures ZeroFree(A) ==> ZeroFree(EraseAt(A, p))
  {
    var B := EraseAt(A, p);
    EraseOrdered(A, p);
    var r0, c0 := A.rowid[p], A.colid[p];
    forall q | 0 <= q < B.nbnz
      ensures !Holds(B, q, r0, c0)
    {
      EraseShift(A, p, q);
      if q < p {
        assert Before(A.rowid[q], A.colid[q], A.rowid[p], A.colid[p]);
      } else {
        assert Before(A.rowid[p], A.colid[p], A.rowid[q + 1], A.colid[q + 1]);
      }
    }
    LookupAbsent(B, r0, c0);
    forall x, y | x != A.rowid[p] || y != A.colid[p]
      ensures Lookup(B, x, y) == Lookup(A, x, y)
    {
      if q :| 0 <= q < A.nbnz && Holds(A, q, x, y) {
        LookupAt(A, q);
        var q' := if q < p then q else q - 1;
        EraseShift(A, p, q');
        LookupAt(B, q');
      } else {
        LookupAbsent(A, x, y);
        forall q | 0 <= q < B.nbnz
          ensures !Holds(B, q, x, y)
        {
          EraseShift(A, p, q);
          if q < p {
            assert !Holds(A, q, x, y);
          } else {
            assert !Holds(A, q + 1, x, y);
          }
        }
        LookupAbsent(B, x, y);
      }
    }
    if ZeroFree(A) {
      forall q | 0 <= q < B.nbnz
        ensures B.data[q] != 0
      {
        EraseShift(A, p, q);
      }
    }
  }

  // ---------------------------------------------------------------------
  // clearEntry and setEntry
  // ---------------------------------------------------------------------

  /**
   * `clearEntry(i, j)` as written: if row i is not empty and the lower
   * bound of j among its columns is inside the row, that position is erased
   * whatever column it holds.
   */
  function ClearEntryAsWritten(A: Coo, i: nat, j: nat): (B: Coo)
    requires Consistent(A) && i < A.rownb && j < A.colnb
    ensures Consistent(B) && B.rownb == A.rownb && B.colnb == A.colnb
    ensures B.nbnz == A.nbnz || B.nbnz + 1 == A.nbnz
  {
    var ibeg := RowBegin(A, i);
    var iend := RowEnd(A, i);
    if ibeg == iend then A
    else
      var low := Slot(A, i, j);
      if low == iend then A else EraseAt(A, low)
  }

  /**
   * Row 0 stores only (0, 1) = 5. Clearing (0, 0), which is not stored,
   * finds column 1 as the lower bound of 0 and erases it.
   */
  lemma ClearEntryAsWrittenErasesNeighbour()
    ensures var A := Coo(1, 2, 1, [0], [1], [5]);
      && Ordered(A) && Lookup(A, 0, 0) == 0 && Lookup(A, 0, 1) == 5
      && Lookup(ClearEntryAsWritten(A, 0, 0), 0, 1) == 0
  {
    var A := Coo(1, 2, 1, [0], [1], [5]);
    assert RowBegin(A, 0) == 0 && RowEnd(A, 0) == 1;
    assert Slot(A, 0, 0) == 0;
    LookupAt(A, 0);
    LookupAbsent(A, 0, 0);
    LookupAbsent(ClearEntryAsWritten(A, 0, 0), 0, 1);
  }

  /** `clearEntry(i, j)` erasing only when the lower bound holds column j itself. */
  function ClearEntry(A: Coo, i: nat, j: nat): (B: Coo)
    requires Consistent(A) && i < A.rownb && j < A.colnb
    ensures Consistent(B) && B.rownb == A.rownb && B.colnb == A.colnb
    ensures B.nbnz == A.nbnz || B.nbnz + 1 == A.nbnz
  {
    var ibeg := RowBegin(A, i);
    var iend := RowEnd(A, i);
    if ibeg == iend then A
    else
      var low := Slot(A, i, j);
      if low == iend || A.colid[low] != j then A else EraseAt(A, low)
  }

  /** The corrected `clearEntry` makes (i, j) read zero and leaves every other entry and the order intact. */
  lemma ClearEntryClears(A: Coo, i: nat, j: nat)
    requires Ordered(A) && i < A.rownb && j < A.colnb
    ensures Ordered(ClearEntry(A, i, j)) && Lookup(ClearEntry(A, i, j), i, j) == 0
    ensures forall x, y :: x != i || y != j ==> Lookup(ClearEntry(A, i, j), x, y) == Lookup(A, x, y)
    ensures ZeroFree(A) ==> ZeroFree(ClearEntry(A, i, j))
  {
    EqualRangeIsRow(A, i);
    SlotSplits(A, i, j);
    var s := Slot(A, i, j);
    if s < A.nbnz && Holds(A, s, i, j) {
      EraseUpdates(A, s);
    } else {
      LookupAbsent(A, i, j);
    }
  }

  /**
   * `setEntry(i, j, e)` with the corrected `clearEntry` (the source sends a
   * zero to the unchecked one: see SetEntryAsWritten): a zero clears the
   * entry; an empty row gets the
   * triple at its `equal_range` position; otherwise the triple is inserted
   * at the lower bound of j among the row's columns unless that position
   * holds column j, whose value is then replaced.
   */
  function SetEntry(A: Coo, i: nat, j: nat, e: int): (B: Coo)
    requires Consistent(A) && i < A.rownb && j < A.colnb
  {
    if e == 0 then ClearEntry(A, i, j)
    else
      var ibeg := RowBegin(A, i);
      var iend := RowEnd(A, i);
      if ibeg == iend then InsertAt(A, ibeg, i, j, e)
      else
        var low := Slot(A, i, j);
        if low == iend || j != A.colid[low] then InsertAt(A, low, i, j, e)
        else A.(data := A.data[low := e])
  }

  /** After `setEntry(i, j, e)` the matrix stays ordered, reads e at (i, j) and its old entries elsewhere. */
  lemma SetEntryUpdates(A: Coo, i: nat, j: nat, e: int)
    requires Ordered(A) && i < A.rownb && j < A.colnb
    ensures Ordered(SetEntry(A, i, j, e)) && Lookup(SetEntry(A, i, j, e), i, j) == e
    ensures forall x, y :: x != i || y != j ==> Lookup(SetEntry(A, i, j, e), x, y) == Lookup(A, x, y)
    ensures ZeroFree(A) ==> ZeroFree(SetEntry(A, i, j, e))
  {
    if e == 0 {
      ClearEntryClears(A, i, j);
    } else {
      EqualRangeIsRow(A, i);
      SlotSplits(A, i, j);
      var s := Slot(A, i, j);
      if s < A.nbnz && Holds(A, s, i, j) {
        ReplaceUpdates(A, s, e);
      } else {
        InsertUpdates(A, s, i, j, e);
      }
    }
  }

  /**
   * Row i stores no (i, j) but some column above j: the one case in which
   * `clearEntry(i, j)` as written erases an entry.
   */
  predicate NeighbourAbove(A: Coo, i: nat, j: nat)
    requires Consistent(A)
  {
    && (forall q :: 0 <= q < A.nbnz ==> !Holds(A, q, i, j))
    && exists q :: 0 <= q < A.nbnz && A.rowid[q] == i && A.colid[q] > j
  }

  /** The two readings of `clearEntry(i, j)` differ exactly when row i lacks j but stores a column above it. */
  lemma ClearEntryAsWrittenAgrees(A: Coo, i: nat, j: nat)
    requires Ordered(A) && i < A.rownb && j < A.colnb
    ensures ClearEntryAsWritten(A, i, j) == ClearEntry(A, i, j) <==> !NeighbourAbove(A, i, j)
  {
    EqualRangeIsRow(A, i);
    SlotSplits(A, i, j);
    var s := Slot(A, i, j);
    if s < RowEnd(A, i) && A.colid[s] != j {
      assert A.rowid[s] == i && A.colid[s] > j;
      assert EraseAt(A, s).nbnz != A.nbnz;
    }
  }

  /**
   * `setEntry(i, j, e)` as written: a zero goes to the unchecked
   * `clearEntry`, any other value is stored as SetEntry stores it.
   */
  function SetEntryAsWritten(A: Coo, i: nat, j: nat, e: int): Coo
    requires Consistent(A) && i < A.rownb && j < A.colnb
  {
    if e == 0 then ClearEntryAsWritten(A, i, j) else SetEntry(A, i, j, e)
  }

  /** `setEntry` as written is the corrected one except when it clears an absent j below a stored column. */
  lemma SetEntryAsWrittenAgrees(A: Coo, i: nat, j: nat, e: int)
    requires Ordered(A) && i < A.rownb && j < A.colnb
    ensures SetEntryAsWritten(A, i, j, e) == SetEntry(A, i, j, e) <==> e != 0 || !NeighbourAbove(A, i, j)
  {
    ClearEntryAsWrittenAgrees(A, i, j);
  }

  /** `setEntry(0, 0, 0)` on the matrix storing only (0, 1) = 5 erases that entry; the corrected setEntry keeps it. */
  lemma SetEntryAsWrittenErasesNeighbour()
    ensures var A := Coo(1, 2, 1, [0], [1], [5]);
      && Lookup(SetEntryAsWritten(A, 0, 0, 0), 0, 1) == 0
      && Lookup(SetEntry(A, 0, 0, 0), 0, 1) == 5
  {
    var A := Coo(1, 2, 1, [0], [1], [5]);
    ClearEntryAsWrittenErasesNeighbour();
    SetEntryUpdates(A, 0, 0, 0);
  }

  // ---------------------------------------------------------------------
  // nextTriple
  // ---------------------------------------------------------------------

  /**
   * `nextTriple`: the cursor `_triples._nnz` (-1 after a reset) moves on by
   * one; past the last triple the cursor is reset and the end reported.
   */
  function NextTriple(A: Coo, cursor: int): (res: (CsrOps.Step, int))
    requires Consistent(A) && cursor >= -1
    ensures res.1 >= -1
  {
    var idx := cursor + 1;
    if idx >= A.nbnz then (CsrOps.End, -1)
    else (CsrOps.Item(A.rowid[idx], A.colid[idx], A.data[idx]), idx)
  }

  /** What successive calls report, stopping at the end. */
  function Enumerate(A: Coo, cursor: int, fuel: nat): seq<(nat, nat, int)>
    requires Consistent(A) && cursor >= -1
    decreases fuel
  {
    if fuel == 0 then []
    else
      match NextTriple(A, cursor).0
      case End => []
      case Item(i, j, e) => [(i, j, e)] + Enumerate(A, NextTriple(A, cursor).1, fuel - 1)
  }

  /** From a cursor at p - 1 the calls report the triples from p on, then end. */
  lemma {:induction false} EnumerateFrom(A: Coo, p: nat)
    requires Consistent(A) && p <= A.nbnz
    ensures Enumerate(A, p - 1, A.nbnz - p + 1) == Triples(A)[p..]
    decreases A.nbnz - p
  {
    if p < A.nbnz {
      EnumerateFrom(A, p + 1);
      assert Triples(A)[p..] == [Triples(A)[p]] + Triples(A)[p + 1..];
    }
  }

  /** A full pass from a reset cursor yields every triple once, in storage order, and then resets. */
  lemma EnumerateAll(A: Coo)
    requires Consistent(A)
    ensures Enumerate(A, -1, A.nbnz + 1) == Triples(A)
    ensures NextTriple(A, A.nbnz - 1) == (CsrOps.End, -1)
  {
    EnumerateFrom(A, 0);
  }
}
