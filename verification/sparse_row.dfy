/**
 * Sparse rows as used by the prime-power elimination: a sequence of
 * (column, value) pairs, read as the map from columns to values that is zero
 * off the stored columns. The elimination keeps its rows strictly
 * column-sorted and free of stored zeros; under those two conditions `Get`
 * determines a row completely, so the row contracts are stated through it.
 */
module SparseRows {

  type Entry = (nat, int)
  type Row = seq<Entry>

  /** Columns strictly increase along the row. */
  predicate Sorted(r: Row)
  {
    forall i, j :: 0 <= i < j < |r| ==> r[i].0 < r[j].0
  }

  /** Every stored column is at least c. */
  predicate ColsGe(r: Row, c: nat)
  {
    forall i :: 0 <= i < |r| ==> r[i].0 >= c
  }

  /** Every stored column is below n. */
  predicate ColsBelow(r: Row, n: nat)
  {
    forall i :: 0 <= i < |r| ==> r[i].0 < n
  }

  /** Every stored value lies in [lo, hi). */
  predicate ValuesIn(r: Row, lo: int, hi: int)
  {
    forall i :: 0 <= i < |r| ==> lo <= r[i].1 < hi
  }

  predicate NoZeros(r: Row)
  {
    forall i :: 0 <= i < |r| ==> r[i].1 != 0
  }

  /** The value at column c, zero when the column is not stored. */
  function Get(r: Row, c: nat): int
  {
    if |r| == 0 then 0
    else if r[0].0 == c then r[0].1
    else Get(r[1..], c)
  }

  /** How many entries of the row are stored at column c (0 or 1 in a sorted row). */
  function Count(r: Row, c: nat): nat
  {
    if |r| == 0 then 0
    else (if r[0].0 == c then 1 else 0) + Count(r[1..], c)
  }

  /** In a sorted zero-free row, a column is counted once exactly when it reads non-zero. */
  lemma {:induction false} CountIsPresence(r: Row, c: nat)
    requires Sorted(r) && NoZeros(r)
    ensures Count(r, c) == Ind(Get(r, c) != 0)
  {
    if |r| > 0 {
      SortedTail(r);
      CountIsPresence(r[1..], c);
      if r[0].0 == c {
        GetBelow(r[1..], c, r[0].0 + 1);
      }
    }
  }

  /** 1 for true, 0 for false: the contribution of one entry to a count. */
  function Ind(b: bool): int
  {
    if b then 1 else 0
  }

  /** The transposition of columns a and b, applied to column c. */
  function Swap(a: nat, b: nat, c: nat): nat
  {
    if c == a then b else if c == b then a else c
  }

  lemma SortedTail(r: Row)
    requires Sorted(r) && |r| > 0
    ensures Sorted(r[1..]) && ColsGe(r[1..], r[0].0 + 1)
  {
  }

  lemma SortedCons(e: Entry, r: Row)
    requires Sorted(r) && ColsGe(r, e.0 + 1)
    ensures Sorted([e] + r)
  {
  }

  lemma GetCons(e: Entry, r: Row, c: nat)
    ensures Get([e] + r, c) == if c == e.0 then e.1 else Get(r, c)
  {
    assert ([e] + r)[1..] == r;
  }

  /** Nothing is stored below the smallest column. */
  lemma {:induction false} GetBelow(r: Row, c: nat, lo: nat)
    requires ColsGe(r, lo) && c < lo
    ensures Get(r, c) == 0
  {
    if |r| > 0 {
      GetBelow(r[1..], c, lo);
    }
  }

  /** The value at a stored position of a sorted row. */
  lemma {:induction false} GetAt(r: Row, i: nat)
    requires Sorted(r) && i < |r|
    ensures Get(r, r[i].0) == r[i].1
  {
    if i > 0 {
      SortedTail(r);
      GetAt(r[1..], i - 1);
    }
  }

  /** A column absent from the row reads as zero; a stored one reads as its value. */
  lemma {:induction false} GetAbsent(r: Row, c: nat)
    requires forall i :: 0 <= i < |r| ==> r[i].0 != c
    ensures Get(r, c) == 0
  {
    if |r| > 0 {
      GetAbsent(r[1..], c);
    }
  }

  /** A non-zero reading comes from some stored entry. */
  lemma {:induction false} GetStored(r: Row, c: nat)
    requires Get(r, c) != 0
    ensures exists i :: 0 <= i < |r| && r[i].0 == c && r[i].1 == Get(r, c)
  {
    if r[0].0 != c {
      GetStored(r[1..], c);
      var i :| 0 <= i < |r[1..]| && r[1..][i].0 == c && r[1..][i].1 == Get(r, c);
      assert r[i + 1].0 == c;
    }
  }

  /** Values of a row with entries in [lo, hi) read into [lo, hi) or as zero. */
  lemma GetRange(r: Row, c: nat, lo: int, hi: int)
    requires ValuesIn(r, lo, hi)
    ensures Get(r, c) == 0 || lo <= Get(r, c) < hi
  {
    if Get(r, c) != 0 {
      GetStored(r, c);
    }
  }

  /** A column is stored in a zero-free row exactly when it reads as non-zero. */
  lemma StoredIffNonZero(r: Row, c: nat)
    requires NoZeros(r) && Sorted(r)
    ensures (exists i :: 0 <= i < |r| && r[i].0 == c) <==> Get(r, c) != 0
  {
    if exists i :: 0 <= i < |r| && r[i].0 == c {
      var i :| 0 <= i < |r| && r[i].0 == c;
      GetAt(r, i);
    }
    if Get(r, c) != 0 {
      GetStored(r, c);
    }
  }

  /** Two sorted zero-free rows that read the same everywhere are the same row. */
  lemma {:induction false} Extensionality(r: Row, s: Row)
    requires Sorted(r) && Sorted(s) && NoZeros(r) && NoZeros(s)
    requires forall c :: Get(r, c) == Get(s, c)
    ensures r == s
    decreases |r| + |s|
  {
    if |r| == 0 && |s| > 0 {
      GetAt(s, 0);
    } else if |r| > 0 && |s| == 0 {
      GetAt(r, 0);
    } else if |r| > 0 {
      GetAt(r, 0);
      GetAt(s, 0);
      SortedTail(r);
      SortedTail(s);
      if r[0].0 < s[0].0 {
        GetBelow(s, r[0].0, s[0].0);
        assert false;
      } else if s[0].0 < r[0].0 {
        GetBelow(r, s[0].0, r[0].0);
        assert false;
      }
      forall c
        ensures Get(r[1..], c) == Get(s[1..], c)
      {
        if c == r[0].0 {
          GetBelow(r[1..], c, r[0].0 + 1);
          GetBelow(s[1..], c, s[0].0 + 1);
        } else {
          assert Get(r, c) == Get(r[1..], c);
          assert Get(s, c) == Get(s[1..], c);
        }
      }
      Extensionality(r[1..], s[1..]);
    }
  }

  /** A prefix that does not store column j can be dropped when reading j. */
  lemma {:induction false} GetSkip(a: Row, b: Row, j: nat)
    requires forall x :: 0 <= x < |a| ==> a[x].0 != j
    ensures Get(a + b, j) == Get(b, j)
  {
    if |a| == 0 {
      assert a + b == b;
    } else {
      assert (a + b)[0] == a[0] && (a + b)[1..] == a[1..] + b;
      GetSkip(a[1..], b, j);
    }
  }

  /** Dropping the first l entries leaves every column they do not store alone. */
  lemma GetDrop(r: Row, l: nat, j: nat)
    requires l <= |r| && forall x :: 0 <= x < l ==> r[x].0 != j
    ensures Get(r[l..], j) == Get(r, j)
  {
    assert r == r[..l] + r[l..];
    GetSkip(r[..l], r[l..], j);
  }

  /** Inserting an entry for another column does not change what j reads. */
  lemma {:induction false} GetInsertOther(a: Row, e: Entry, b: Row, j: nat)
    requires e.0 != j
    ensures Get(a + [e] + b, j) == Get(a + b, j)
  {
    if |a| == 0 {
      assert a + [e] + b == [e] + b && a + b == b;
      GetCons(e, b, j);
    } else {
      assert (a + [e] + b)[0] == a[0] && (a + [e] + b)[1..] == a[1..] + [e] + b;
      assert (a + b)[0] == a[0] && (a + b)[1..] == a[1..] + b;
      GetInsertOther(a[1..], e, b, j);
    }
  }

  /** Inserting e between the columns below and above it keeps the row sorted and sets column e.0 to e.1. */
  lemma {:induction false} InsertAt(r: Row, q: nat, e: Entry)
    requires Sorted(r) && q <= |r|
    requires forall x :: 0 <= x < q ==> r[x].0 < e.0
    requires q < |r| ==> r[q].0 > e.0
    ensures Sorted(r[..q] + [e] + r[q..])
    ensures Get(r[..q] + [e] + r[q..], e.0) == e.1
    ensures forall y :: y != e.0 ==> Get(r[..q] + [e] + r[q..], y) == Get(r, y)
  {
    InsertSorted(r, q, e);
    assert r[..q] + [e] + r[q..] == r[..q] + ([e] + r[q..]);
    GetSkip(r[..q], [e] + r[q..], e.0);
    GetCons(e, r[q..], e.0);
    assert r[..q] + r[q..] == r;
    forall y | y != e.0
      ensures Get(r[..q] + [e] + r[q..], y) == Get(r, y)
    {
      GetInsertOther(r[..q], e, r[q..], y);
    }
  }

  lemma {:induction false} InsertSorted(r: Row, q: nat, e: Entry)
    requires Sorted(r) && q <= |r|
    requires forall x :: 0 <= x < q ==> r[x].0 < e.0
    requires q < |r| ==> r[q].0 > e.0
    ensures Sorted(r[..q] + [e] + r[q..])
  {
    var t := r[..q] + [e] + r[q..];
    assert forall x :: 0 <= x < q ==> t[x] == r[x];
    assert t[q] == e;
    assert forall x :: q < x < |t| ==> t[x] == r[x - 1];
    forall x, y | 0 <= x < y < |t|
      ensures t[x].0 < t[y].0
    {
      if y > q && x < q {
        assert r[x].0 < e.0 < r[q].0 <= r[y - 1].0;
      } else if y > q && x == q {
        assert r[q].0 <= r[y - 1].0;
      }
    }
  }

  /** Overwriting the value at position q keeps the row sorted and changes only column r[q].0. */
  lemma {:induction false} ReplaceAt(r: Row, q: nat, v: int)
    requires Sorted(r) && q < |r|
    ensures Sorted(r[q := (r[q].0, v)])
    ensures Get(r[q := (r[q].0, v)], r[q].0) == v
    ensures forall y :: y != r[q].0 ==> Get(r[q := (r[q].0, v)], y) == Get(r, y)
  {
    var c := r[q].0;
    var t := r[q := (c, v)];
    assert t == r[..q] + [(c, v)] + r[q + 1..];
    assert r == r[..q] + [r[q]] + r[q + 1..];
    forall y
      ensures Get(t, y) == if y == c then v else Get(r, y)
    {
      if y == c {
        assert t == r[..q] + ([(c, v)] + r[q + 1..]);
        GetSkip(r[..q], [(c, v)] + r[q + 1..], y);
        GetCons((c, v), r[q + 1..], y);
      } else {
        GetInsertOther(r[..q], (c, v), r[q + 1..], y);
        GetInsertOther(r[..q], r[q], r[q + 1..], y);
      }
    }
  }

  /** Removing position q keeps the row sorted and clears exactly column r[q].0. */
  lemma {:induction false} RemoveAt(r: Row, q: nat)
    requires Sorted(r) && q < |r|
    ensures Sorted(r[..q] + r[q + 1..])
    ensures Get(r[..q] + r[q + 1..], r[q].0) == 0
    ensures forall y :: y != r[q].0 ==> Get(r[..q] + r[q + 1..], y) == Get(r, y)
  {
    var t := r[..q] + r[q + 1..];
    assert forall x :: 0 <= x < q ==> t[x] == r[x];
    assert forall x :: q <= x < |t| ==> t[x] == r[x + 1];
    forall x | 0 <= x < |t|
      ensures t[x].0 != r[q].0
    {
      if x >= q {
        assert t[x].0 == r[x + 1].0 > r[q].0;
      }
    }
    GetAbsent(t, r[q].0);
    assert r == r[..q] + [r[q]] + r[q + 1..];
    forall y | y != r[q].0
      ensures Get(t, y) == Get(r, y)
    {
      GetInsertOther(r[..q], r[q], r[q + 1..], y);
    }
  }
}
