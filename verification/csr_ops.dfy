/**
 * The construction sequence and maintenance operations of the CSR matrix:
 * `appendEntry` / `finalize`, `compress`, `maxrow`, the `nextTriple`
 * cursor and `clean`.
 *
 * During construction `start[i + 1]` counts the entries appended to row i;
 * `finalize` turns the counts into the row offsets.
 */
module CsrOps {
  import opened SparseRows
  import opened CsrMatrix

  // ---------------------------------------------------------------------
  // appendEntry and finalize
  // ---------------------------------------------------------------------

  function Sum(s: seq<int>): int
  {
    if |s| == 0 then 0 else Sum(s[..|s| - 1]) + s[|s| - 1]
  }

  lemma SumSnoc(s: seq<int>, k: nat)
    requires k < |s|
    ensures Sum(s[..k + 1]) == Sum(s[..k]) + s[k]
  {
    assert s[..k + 1][..k] == s[..k];
  }

  /** Adding d at one position adds d to the sum. */
  lemma {:induction false} SumUpdate(s: seq<int>, k: nat, d: int)
    requires k < |s|
    ensures Sum(s[k := s[k] + d]) == Sum(s) + d
  {
    var t := s[k := s[k] + d];
    if k == |s| - 1 {
      assert t[..|t| - 1] == s[..|s| - 1];
    } else {
      assert t[..|t| - 1] == s[..|s| - 1][k := s[k] + d];
      SumUpdate(s[..|s| - 1], k, d);
    }
  }

  lemma {:induction false} SumZeros(n: nat)
    ensures Sum(seq(n, _ => 0)) == 0
  {
    if n > 0 {
      assert seq(n, _ => 0)[..n - 1] == seq(n - 1, _ => 0);
      SumZeros(n - 1);
    }
  }

  /** Non-negative terms with a zero sum are all zero. */
  lemma {:induction false} SumZeroAllZero(s: seq<int>)
    requires forall k :: 0 <= k < |s| ==> s[k] >= 0
    requires Sum(s) == 0
    ensures forall k :: 0 <= k < |s| ==> s[k] == 0
  {
    if |s| > 0 {
      SumNonNegative(s[..|s| - 1]);
      SumZeroAllZero(s[..|s| - 1]);
      assert forall k :: 0 <= k < |s| - 1 ==> s[k] == s[..|s| - 1][k];
    }
  }

  lemma {:induction false} SumNonNegative(s: seq<int>)
    requires forall k :: 0 <= k < |s| ==> s[k] >= 0
    ensures Sum(s) >= 0
  {
    if |s| > 0 {
      SumNonNegative(s[..|s| - 1]);
    }
  }

  /**
   * The state between `appendEntry` calls: one count per row after a zero
   * `start[0]`, the counts adding up to nbnz, `colid` and `data` of length
   * nbnz.
   */
  predicate Pending(A: Csr)
  {
    && |A.start| == A.rownb + 1
    && A.start[0] == 0
    && (forall k :: 0 <= k < |A.start| ==> A.start[k] >= 0)
    && Sum(A.start) == A.nbnz
    && |A.colid| == A.nbnz && |A.data| == A.nbnz
  }

  /** `std::vector::resize(n)`: truncated, or padded with the default value. */
  function Resize<T>(s: seq<T>, n: nat, pad: T): (r: seq<T>)
    ensures |r| == n
    ensures forall k :: 0 <= k < n ==> r[k] == if k < |s| then s[k] else pad
  {
    if |s| >= n then s[..n] else s + seq(n - |s|, _ => pad)
  }

  /**
   * `appendEntry(i, j, e)`: a zero is ignored; otherwise `start` is first
   * resized to rownb + 1 if it has another length, row i's count
   * `start[i + 1]` goes up by one and (j, e) is pushed at the end.
   */
  function AppendEntry(A: Csr, i: nat, j: nat, e: int): (B: Csr)
    requires i < A.rownb && j < A.colnb
    ensures e == 0 ==> B == A
    ensures e != 0 ==> B.colid == A.colid + [j] && B.data == A.data + [e] && B.nbnz == A.nbnz + 1
    ensures e != 0 ==> |B.start| == A.rownb + 1
    ensures e != 0 ==> forall k :: 0 <= k <= A.rownb && k != i + 1 ==> B.start[k] == (if k < |A.start| then A.start[k] else 0)
    ensures e != 0 ==> B.start[i + 1] == (if i + 1 < |A.start| then A.start[i + 1] else 0) + 1
  {
    if e == 0 then A
    else
      var s := if A.rownb + 1 != |A.start| then Resize(A.start, A.rownb + 1, 0) else A.start;
      A.(start := s[i + 1 := s[i + 1] + 1], colid := A.colid + [j], data := A.data + [e], nbnz := A.nbnz + 1)
  }

  /** The empty matrix is a pending one, and `appendEntry` keeps the counts adding up to nbnz. */
  lemma AppendEntryPending(A: Csr, i: nat, j: nat, e: int)
    requires Pending(A) && i < A.rownb && j < A.colnb
    ensures Pending(AppendEntry(A, i, j, e))
  {
    if e != 0 {
      SumUpdate(A.start, i + 1, 1);
      assert AppendEntry(A, i, j, e).start == A.start[i + 1 := A.start[i + 1] + 1];
    }
  }

  lemma EmptyPending(m: nat, n: nat)
    ensures Pending(Empty(m, n))
  {
    SumZeros(m + 1);
  }

  /**
   * The loop of `finalize` up to index n: `start[i] += start[i - 1]` for
   * i = 2 .. n. Entry 1 is kept and entry k becomes the sum of entries
   * 1 .. k; everything past n is untouched.
   */
  function Accumulate(s: seq<int>, n: nat): (r: seq<int>)
    requires n < |s|
    ensures |r| == |s| && r[0] == s[0]
    ensures forall k :: n < k < |s| ==> r[k] == s[k]
    ensures forall k :: 1 <= k <= n ==> r[k] + s[0] == Sum(s[..k + 1])
  {
    if n < 2 then
      (if n == 1 then SumSnoc(s, 1); SumSnoc(s, 0); assert s[..0] == []; s else s)
    else
      var t := Accumulate(s, n - 1);
      SumSnoc(s, n);
      t[n := t[n] + t[n - 1]]
  }

  /**
   * `finalize`: unless `start[rownb]` already equals nbnz, the counts are
   * accumulated into offsets. The `_triples` cursor reset is modelled by
   * the caller starting again from `Reset`.
   */
  function Finalize(A: Csr): (B: Csr)
    requires |A.start| > A.rownb
    ensures B.rownb == A.rownb && B.colnb == A.colnb && B.nbnz == A.nbnz && B.colid == A.colid && B.data == A.data
    ensures A.start[A.rownb] == A.nbnz ==> B == A
  {
    if A.start[A.rownb] != A.nbnz then A.(start := Accumulate(A.start, A.rownb)) else A
  }

  /**
   * On a pending matrix `finalize` yields the offsets: start[k] is the
   * number of entries in rows before k, so start[rownb] = nbnz and the
   * result is shaped. The skip when start[rownb] already equals nbnz is
   * sound because the other counts are then all zero.
   */
  lemma FinalizeOffsets(A: Csr)
    requires Pending(A)
    ensures forall k :: 0 <= k <= A.rownb ==> Finalize(A).start[k] == Sum(A.start[..k + 1])
    ensures Shaped(Finalize(A))
  {
    var B := Finalize(A);
    assert A.start[..A.rownb + 1] == A.start;
    if A.start[A.rownb] == A.nbnz {
      SkipSound(A);
    }
    forall x, k | 0 <= x <= k <= A.rownb
      ensures B.start[x] <= B.start[k]
    {
      PrefixSumMonotone(A.start, x, k);
    }
  }

  /** When the last count already equals nbnz, the counts are already their own prefix sums. */
  lemma SkipSound(A: Csr)
    requires Pending(A) && A.start[A.rownb] == A.nbnz
    ensures forall k :: 0 <= k <= A.rownb ==> A.start[k] == Sum(A.start[..k + 1])
  {
    var z := A.start[..A.rownb];
    assert A.start[..A.rownb + 1] == A.start;
    SumSnoc(A.start, A.rownb);
    SumZeroAllZero(z);
    forall k | 0 <= k < A.rownb
      ensures A.start[k] == Sum(A.start[..k + 1])
    {
      assert A.start[k] == z[k];
      assert forall x :: 0 <= x < k + 1 ==> A.start[..k + 1][x] == z[x];
      SumZeroPrefix(A.start[..k + 1]);
    }
  }

  lemma {:induction false} SumZeroPrefix(s: seq<int>)
    requires forall k :: 0 <= k < |s| ==> s[k] == 0
    ensures Sum(s) == 0
  {
    if |s| > 0 {
      SumZeroPrefix(s[..|s| - 1]);
    }
  }

  /** Sums of longer prefixes of non-negative terms are larger. */
  lemma {:induction false} PrefixSumMonotone(s: seq<int>, x: nat, k: nat)
    requires x <= k < |s| && forall i :: 0 <= i < |s| ==> s[i] >= 0
    ensures Sum(s[..x + 1]) <= Sum(s[..k + 1])
    decreases k - x
  {
    if x < k {
      PrefixSumMonotone(s, x, k - 1);
      SumSnoc(s, k);
    }
  }

  /** `finalize` twice is `finalize` once. */
  lemma FinalizeIdempotent(A: Csr)
    requires Pending(A)
    ensures Finalize(Finalize(A)) == Finalize(A)
  {
    FinalizeOffsets(A);
  }

  // ---------------------------------------------------------------------
  // compress and maxrow
  // ---------------------------------------------------------------------

  /** The loop of `compress`: from i down, stop at the first i with start[i] != start[i - 1]. */
  function LastNonEmpty(A: Csr, i: nat): (r: nat)
    requires i < |A.start|
    ensures r <= i
    ensures r == 0 || A.start[r] != A.start[r - 1]
    ensures forall k :: r < k <= i ==> A.start[k] == A.start[k - 1]
  {
    if i == 0 then 0 else if A.start[i] != A.start[i - 1] then i else LastNonEmpty(A, i - 1)
  }

  /** `compress`: rownb drops to one past the last non-empty row; `start` keeps its length. */
  function Compress(A: Csr): (B: Csr)
    requires |A.start| > A.rownb
  {
    A.(rownb := LastNonEmpty(A, A.rownb))
  }

  /** A run of equal neighbours has equal ends. */
  lemma {:induction false} ConstantRun(s: seq<int>, a: nat, b: nat)
    requires a <= b < |s| && forall k :: a < k <= b ==> s[k] == s[k - 1]
    ensures s[a] == s[b]
    decreases b - a
  {
    if a < b {
      ConstantRun(s, a, b - 1);
    }
  }

  /**
   * `compress` keeps a shaped matrix shaped and every kept row intact; the
   * rows it drops are empty and the last kept row is not.
   */
  lemma CompressDropsEmptyRows(A: Csr)
    requires Shaped(A)
    ensures Shaped(Compress(A)) && Compress(A).rownb <= A.rownb
    ensures forall x :: 0 <= x < Compress(A).rownb ==> RowOf(Compress(A), x) == RowOf(A, x)
    ensures forall x :: Compress(A).rownb <= x < A.rownb ==> RowOf(A, x) == []
    ensures Compress(A).rownb > 0 ==> RowOf(A, Compress(A).rownb - 1) != []
  {
    var r := Compress(A).rownb;
    ConstantRun(A.start, r, A.rownb);
    forall x | r <= x < A.rownb
      ensures RowOf(A, x) == []
    {
      ConstantRun(A.start, x, x + 1);
    }
  }

  /** The loop of `maxrow` from row i on, with the maximum m so far. */
  function MaxRowFrom(A: Csr, i: nat, m: int): (r: int)
    requires |A.start| > A.rownb && i >= 1
    ensures r >= m
    ensures forall x :: i <= x < A.rownb ==> r >= A.start[x + 1] - A.start[x]
    ensures r == m || exists x :: i <= x < A.rownb && r == A.start[x + 1] - A.start[x]
    decreases A.rownb - i
  {
    if i >= A.rownb then m else MaxRowFrom(A, i + 1, if m >= A.start[i + 1] - A.start[i] then m else A.start[i + 1] - A.start[i])
  }

  /**
   * `maxrow`: the longest row. It starts from row 0's length read as
   * `start[1] - start[0]`, so `start` needs two entries even when rownb is 0.
   */
  function MaxRow(A: Csr): (r: int)
    requires |A.start| >= 2 && |A.start| > A.rownb
  {
    MaxRowFrom(A, 1, A.start[1] - A.start[0])
  }

  lemma MaxRowIsLongest(A: Csr)
    requires Shaped(A) && A.rownb >= 1
    ensures forall x :: 0 <= x < A.rownb ==> |RowOf(A, x)| <= MaxRow(A)
    ensures exists x :: 0 <= x < A.rownb && |RowOf(A, x)| == MaxRow(A)
  {
    MaxRowBounds(A);
    var x := MaxRowAttained(A);
  }

  lemma MaxRowBounds(A: Csr)
    requires Shaped(A) && A.rownb >= 1
    ensures forall x :: 0 <= x < A.rownb ==> |RowOf(A, x)| <= MaxRow(A)
  {
    var r := MaxRow(A);
    forall x | 0 <= x < A.rownb
      ensures |RowOf(A, x)| <= r
    {
      assert |RowOf(A, x)| == A.start[x + 1] - A.start[x];
    }
  }

  lemma MaxRowAttained(A: Csr) returns (x: nat)
    requires Shaped(A) && A.rownb >= 1
    ensures x < A.rownb && |RowOf(A, x)| == MaxRow(A)
  {
    var r := MaxRow(A);
    if r == A.start[1] - A.start[0] {
      x := 0;
    } else {
      x :| 1 <= x < A.rownb && r == A.start[x + 1] - A.start[x];
    }
  }

  // ---------------------------------------------------------------------
  // The nextTriple cursor
  // ---------------------------------------------------------------------

  /** The `_triples` state: the current row and position, both -1 after a reset. */
  datatype Cursor = Cursor(row: int, nnz: int)

  const Reset: Cursor := Cursor(-1, -1)

  /** The loop of `_triples.next`: move row on while start[row + 1] <= nnz. */
  function Climb(start: seq<int>, row: int, nnz: int): (r: int)
    requires -1 <= row < |start|
    ensures row <= r < |start|
    decreases |start| - row
  {
    if row + 1 < |start| && nnz >= start[row + 1] then Climb(start, row + 1, nnz) else row
  }

  datatype Step = End | Item(i: nat, j: nat, e: int)

  predicate CursorOk(A: Csr, c: Cursor)
  {
    -1 <= c.row < |A.start| && c.nnz >= -1
  }

  /**
   * `nextTriple`: advance the position, climb to its row, and report the
   * triple there; past the last entry or the last row, report the end and
   * reset the cursor.
   */
  function NextTriple(A: Csr, c: Cursor): (res: (Step, Cursor))
    requires |A.colid| == A.nbnz && |A.data| == A.nbnz && CursorOk(A, c)
    ensures CursorOk(A, res.1)
  {
    var nnz := c.nnz + 1;
    var row := Climb(A.start, c.row, nnz);
    if nnz >= A.nbnz || row < 0 || row >= A.rownb then (End, Reset)
    else (Item(row, A.colid[nnz], A.data[nnz]), Cursor(row, nnz))
  }

  /** The row that owns position p. */
  function RowAt(A: Csr, p: nat): (x: nat)
    requires Shaped(A) && p < A.nbnz
    ensures x < A.rownb && A.start[x] <= p < A.start[x + 1]
  {
    RowAtFrom(A, p, 0)
  }

  function RowAtFrom(A: Csr, p: nat, x: nat): (r: nat)
    requires Shaped(A) && p < A.nbnz && x < A.rownb && A.start[x] <= p
    ensures x <= r < A.rownb && A.start[r] <= p < A.start[r + 1]
    decreases A.rownb - x
  {
    if p < A.start[x + 1] then x else RowAtFrom(A, p, x + 1)
  }

  /** From a row at or before the owner of nnz, the climb stops exactly at the owner. */
  lemma {:induction false} ClimbLands(A: Csr, row: int, nnz: nat, target: nat)
    requires Shaped(A) && target < A.rownb && A.start[target] <= nnz < A.start[target + 1]
    requires -1 <= row <= target
    ensures Climb(A.start, row, nnz) == target
    decreases target - row
  {
    if row < target {
      assert A.start[row + 1] <= A.start[target];
      ClimbLands(A, row + 1, nnz, target);
    }
  }

  /** The cursor after the first p calls. */
  function CursorAt(A: Csr, p: nat): (c: Cursor)
    requires Shaped(A) && p <= A.nbnz
    ensures CursorOk(A, c)
  {
    if p == 0 then Reset else Cursor(RowAt(A, p - 1), p - 1)
  }

  /** Call p + 1 yields the entry at position p with its row; call nbnz + 1 ends and resets. */
  lemma NextTripleStep(A: Csr, p: nat)
    requires Shaped(A) && p <= A.nbnz
    ensures p < A.nbnz ==> NextTriple(A, CursorAt(A, p)) == (Item(RowAt(A, p), A.colid[p], A.data[p]), CursorAt(A, p + 1))
    ensures p == A.nbnz ==> NextTriple(A, CursorAt(A, p)) == (End, Reset)
  {
    if p < A.nbnz {
      var c := CursorAt(A, p);
      ClimbLands(A, c.row, p, RowAt(A, p));
    }
  }

  /**
   * `getEntry(i, j)` as written, with the `_triples` cursor it shares with
   * `nextTriple`: `next` advances the position and climbs to its row; when
   * that position is stored, holds column j and the cursor's row is i, its
   * value is returned at once. Nothing checks that the cursor still
   * describes the storage, and `setEntry`/`clearEntry` leave it as it is.
   * Otherwise the row is searched, and a hit moves the cursor onto it.
   */
  function GetEntryAsWritten(A: Csr, c: Cursor, i: nat, j: nat): (res: (int, Cursor))
    requires Shaped(A) && i < A.rownb && j < A.colnb && CursorOk(A, c)
    ensures CursorOk(A, res.1)
    ensures res.0 != 0 ==> exists k :: 0 <= k < A.nbnz && A.colid[k] == j && A.data[k] == res.0
  {
    var nnz := c.nnz + 1;
    var row := Climb(A.start, c.row, nnz);
    if nnz < A.nbnz && A.colid[nnz] == j && i == row then (A.data[nnz], Cursor(row, nnz))
    else
      var ibeg := A.start[i];
      var iend := A.start[i + 1];
      if ibeg == iend then (0, Cursor(row, nnz))
      else
        var low := LowerBound(A.colid, ibeg, iend, j);
        if low == iend || A.colid[low] != j then (0, Cursor(row, nnz)) else (A.data[low], Cursor(i, low))
  }

  /** While the cursor is one that `nextTriple` reaches on the current storage, the shortcut reads the matrix. */
  lemma GetEntryAsWrittenCurrent(A: Csr, p: nat, i: nat, j: nat)
    requires Valid(A) && p <= A.nbnz && i < A.rownb && j < A.colnb
    ensures GetEntryAsWritten(A, CursorAt(A, p), i, j).0 == CsrMatrix.Entry(A, i, j)
  {
    GetEntryReadsRow(A, i, j);
    if p < A.nbnz {
      NextTripleStep(A, p);
      var c := CursorAt(A, p);
      assert Climb(A.start, c.row, p) == RowAt(A, p);
      if A.colid[p] == j && i == RowAt(A, p) {
        var r := RowOf(A, i);
        GetAt(r, p - A.start[i]);
      }
    }
  }

  /**
   * On the empty 2 x 3 matrix: `setEntry(1, 0, 5)`, `getEntry(1, 0)`, which
   * leaves the cursor at position 0 of row 1, `setEntry(0, 1, 7)` and
   * `setEntry(0, 2, 9)`. Position 1 now holds (0, 2) = 9, yet the cursor
   * still says row 1, so `getEntry(1, 2)` returns 9 where the matrix holds 0.
   */
  lemma GetEntryAsWrittenStaleCursor()
    ensures var A1 := SetEntryAsWritten(Empty(2, 3), 1, 0, 5);
      var c := GetEntryAsWritten(A1, Reset, 1, 0).1;
      var A2 := SetEntryAsWritten(SetEntryAsWritten(A1, 0, 1, 7), 0, 2, 9);
      && GetEntryAsWritten(A2, c, 1, 2).0 == 9 && CsrMatrix.Entry(A2, 1, 2) == 0
  {
    var A0 := Empty(2, 3);
    assert A0.start == [0, 0, 0];
    var A1 := SetEntryAsWritten(A0, 1, 0, 5);
    assert A1 == Csr(2, 3, 1, [0, 0, 1], [0], [5]);
    var c := GetEntryAsWritten(A1, Reset, 1, 0).1;
    assert Climb(A1.start, -1, 0) == 1;
    assert c == Cursor(1, 0);
    var B := SetEntryAsWritten(A1, 0, 1, 7);
    assert B == Csr(2, 3, 2, [0, 1, 2], [1, 0], [7, 5]);
    var A2 := SetEntryAsWritten(B, 0, 2, 9);
    assert LowerBound(B.colid, 0, 1, 2) == 1;
    assert A2 == Csr(2, 3, 3, [0, 2, 3], [1, 2, 0], [7, 9, 5]);
    assert Climb(A2.start, 1, 1) == 1;
    assert RowOf(A2, 1) == [(0, 5)];
  }

  /** What nbnz + 1 calls from a reset cursor report, stopping at the end. */
  function Enumerate(A: Csr, c: Cursor, fuel: nat): seq<(nat, nat, int)>
    requires |A.colid| == A.nbnz && |A.data| == A.nbnz && CursorOk(A, c)
    decreases fuel
  {
    if fuel == 0 then []
    else
      match NextTriple(A, c).0
      case End => []
      case Item(i, j, e) => [(i, j, e)] + Enumerate(A, NextTriple(A, c).1, fuel - 1)
  }

  /** The stored entries in storage order, each with the row that owns it. */
  function StorageTriples(A: Csr): (t: seq<(nat, nat, int)>)
    requires Shaped(A)
    ensures |t| == A.nbnz
  {
    seq(A.nbnz, p requires 0 <= p < A.nbnz && Shaped(A) => (RowAt(A, p), A.colid[p], A.data[p]))
  }

  /** From position p on, the cursor yields the stored entries in storage order and then stops. */
  lemma {:induction false} EnumerateFrom(A: Csr, p: nat)
    requires Shaped(A) && p <= A.nbnz
    ensures Enumerate(A, CursorAt(A, p), A.nbnz - p + 1) == StorageTriples(A)[p..]
    decreases A.nbnz - p
  {
    if p < A.nbnz {
      EnumerateFrom(A, p + 1);
      EnumerateUnfold(A, p);
      SliceCons(StorageTriples(A), p);
    } else {
      NextTripleStep(A, p);
    }
  }

  lemma SliceCons<T>(t: seq<T>, p: nat)
    requires p < |t|
    ensures t[p..] == [t[p]] + t[p + 1..]
  {
  }

  lemma EnumerateUnfold(A: Csr, p: nat)
    requires Shaped(A) && p < A.nbnz
    ensures Enumerate(A, CursorAt(A, p), A.nbnz - p + 1) == [StorageTriples(A)[p]] + Enumerate(A, CursorAt(A, p + 1), A.nbnz - p)
  {
    NextTripleStep(A, p);
  }

  /** A full pass from a reset cursor yields every stored entry once, in storage order. */
  lemma EnumerateAll(A: Csr)
    requires Shaped(A)
    ensures Enumerate(A, Reset, A.nbnz + 1) == StorageTriples(A)
  {
    EnumerateFrom(A, 0);
  }

  /** On a valid matrix every yielded triple (i, j, e) is the entry (i, j) of the matrix. */
  lemma StorageTriplesAreEntries(A: Csr, p: nat)
    requires Valid(A) && p < A.nbnz
    ensures var t := StorageTriples(A)[p]; t.1 < A.colnb && CsrMatrix.Entry(A, t.0, t.1) == t.2
  {
    var x := RowAt(A, p);
    var row := RowOf(A, x);
    assert row[p - A.start[x]] == (A.colid[p], A.data[p]);
    GetAt(row, p - A.start[x]);
  }

  // ---------------------------------------------------------------------
  // clean
  // ---------------------------------------------------------------------

  /**
   * `clean` as written, from position p of `data` on: a zero at p is erased
   * together with `start[k] -= 1` for p < k <= rownb, where p is a position
   * and not a row; `_nbnz` is never updated.
   */
  function CleanAsWritten(A: Csr, p: nat): (B: Csr)
    requires |A.colid| == |A.data| && |A.start| > A.rownb
    ensures |B.colid| == |B.data| && |B.start| == |A.start|
    ensures B.nbnz == A.nbnz && B.rownb == A.rownb && B.colnb == A.colnb
    decreases |A.data| - p
  {
    if p >= |A.data| then A
    else if A.data[p] == 0 then
      CleanAsWritten(A.(
        start := seq(|A.start|, k requires 0 <= k < |A.start| => if p < k <= A.rownb then A.start[k] - 1 else A.start[k]),
        colid := A.colid[..p] + A.colid[p + 1..],
        data := A.data[..p] + A.data[p + 1..]), p)
    else CleanAsWritten(A, p + 1)
  }

  /** Row 0 holds (0, 5) and a stored zero at column 1; row 1 holds (1, 0) = 7. */
  const CleanExample: Csr := Csr(2, 2, 3, [0, 2, 3], [0, 1, 0], [5, 0, 7])

  lemma CleanExampleValid()
    ensures Valid(CleanExample) && CsrMatrix.Entry(CleanExample, 1, 0) == 7
  {
    var A := CleanExample;
    assert Shaped(A) by {
      assert A.start == [0, 2, 3];
      forall i, k | 0 <= i <= k <= 2
        ensures A.start[i] <= A.start[k]
      {
      }
    }
    forall i | 0 <= i < 2
      ensures Sorted(RowOf(A, i)) && ColsBelow(RowOf(A, i), 2)
    {
      if i == 0 {
        assert RowOf(A, 0) == [(0, 5), (1, 0)];
      } else {
        assert RowOf(A, 1) == [(0, 7)];
      }
    }
    assert RowOf(A, 1) == [(0, 7)];
  }

  /**
   * `clean` as written erases the stored zero but lowers start[2] instead of
   * start[1]: row 0 now spans both remaining entries, row 1 is empty, and
   * nbnz still says 3 with 2 entries left.
   */
  lemma CleanAsWrittenExample()
    ensures Valid(CleanExample) && CsrMatrix.Entry(CleanExample, 1, 0) == 7
    ensures CleanAsWritten(CleanExample, 0) == Csr(2, 2, 3, [0, 2, 2], [0, 0], [5, 7])
    ensures CleanAsWritten(CleanExample, 0).nbnz != |CleanAsWritten(CleanExample, 0).data|
  {
    CleanExampleValid();
    var A := CleanExample;
    var A1 := A.(start := [0, 2, 2], colid := [0, 0], data := [5, 7]);
    assert A.colid[..1] + A.colid[2..] == [0, 0];
    assert A.data[..1] + A.data[2..] == [5, 7];
    assert CleanAsWritten(A, 0) == CleanAsWritten(A, 1);
    assert CleanAsWritten(A, 1) == CleanAsWritten(A1, 1);
    assert CleanAsWritten(A1, 1) == CleanAsWritten(A1, 2);
  }

  /** The row without its stored zeros, in the same order. */
  function DropZeros(r: Row): (t: Row)
    ensures NoZeros(t) && |t| <= |r|
  {
    if |r| == 0 then []
    else if r[0].1 == 0 then DropZeros(r[1..])
    else [r[0]] + DropZeros(r[1..])
  }

  /** Dropping zeros from a sorted row keeps it sorted, within its column range, and reading the same. */
  lemma {:induction false} DropZerosKeeps(r: Row, lo: nat, n: nat)
    requires Sorted(r) && ColsGe(r, lo) && ColsBelow(r, n)
    ensures Sorted(DropZeros(r)) && ColsGe(DropZeros(r), lo) && ColsBelow(DropZeros(r), n)
    ensures forall y :: Get(DropZeros(r), y) == Get(r, y)
  {
    if |r| > 0 {
      SortedTail(r);
      DropZerosKeeps(r[1..], r[0].0 + 1, n);
      var t := DropZeros(r[1..]);
      forall y
        ensures Get(DropZeros(r), y) == Get(r, y)
      {
        if y == r[0].0 {
          GetBelow(t, y, r[0].0 + 1);
          if r[0].1 != 0 {
            GetCons(r[0], t, y);
          }
        } else if r[0].1 != 0 {
          GetCons(r[0], t, y);
        }
      }
      if r[0].1 != 0 {
        SortedCons(r[0], t);
      }
    }
  }

  /**
   * `clean` corrected: each row loses its stored zeros, the offsets are
   * recomputed from the new row lengths and nbnz becomes the new number of
   * entries.
   */
  function Clean(A: Csr): (B: Csr)
    requires Shaped(A)
    ensures Shaped(B) && B.rownb == A.rownb && B.colnb == A.colnb && B.nbnz <= A.nbnz
  {
    var rows := seq(A.rownb, i requires 0 <= i < A.rownb => DropZeros(RowOf(A, i)));
    TotalLenAtMost(A, rows);
    FromRows(A.rownb, A.colnb, rows)
  }

  lemma TotalLenAtMost(A: Csr, rows: seq<Row>)
    requires Shaped(A) && |rows| == A.rownb
    requires forall i :: 0 <= i < A.rownb ==> |rows[i]| <= |RowOf(A, i)|
    ensures TotalLen(rows) <= A.nbnz
  {
    TotalLenBound(A, rows, A.rownb);
    assert rows[..A.rownb] == rows;
  }

  lemma {:induction false} TotalLenBound(A: Csr, rows: seq<Row>, k: nat)
    requires Shaped(A) && |rows| == A.rownb && k <= A.rownb
    requires forall i :: 0 <= i < A.rownb ==> |rows[i]| <= |RowOf(A, i)|
    ensures TotalLen(rows[..k]) <= A.start[k]
  {
    if k > 0 {
      TotalLenBound(A, rows, k - 1);
      assert rows[..k][..k - 1] == rows[..k - 1];
    }
  }

  /** The corrected `clean` keeps a valid matrix valid, stores no zero and reads the same everywhere. */
  lemma CleanKeepsEntries(A: Csr)
    requires Valid(A)
    ensures Valid(Clean(A)) && ZeroFree(Clean(A))
    ensures forall i, j :: 0 <= i < A.rownb ==> CsrMatrix.Entry(Clean(A), i, j) == CsrMatrix.Entry(A, i, j)
  {
    forall i | 0 <= i < A.rownb
      ensures Sorted(RowOf(Clean(A), i)) && ColsBelow(RowOf(Clean(A), i), A.colnb)
      ensures forall j :: CsrMatrix.Entry(Clean(A), i, j) == CsrMatrix.Entry(A, i, j)
    {
      DropZerosKeeps(RowOf(A, i), 0, A.colnb);
    }
  }
}
