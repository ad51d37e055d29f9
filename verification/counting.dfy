/**
 * Counting by key, the first two passes of the counting sorts in the CSR
 * and COO conversions and transposes: count the positions of every key
 * into `start[key + 1]`, then accumulate the counts into offsets.
 *
 * Keys are column indices (`transpose`) or row indices (COO `exporte`);
 * m is the number of keys.
 */
module Counting {
  import opened CsrOps

  /** Every key is below m. */
  predicate InRange(keys: seq<nat>, m: nat)
  {
    forall p :: 0 <= p < |keys| ==> keys[p] < m
  }

  /** Keys that never decrease, as the row indices of a row-sorted COO matrix. */
  predicate NonDecreasing(keys: seq<nat>)
  {
    forall p, q :: 0 <= p <= q < |keys| ==> keys[p] <= keys[q]
  }

  /** The positions q < n holding key c, in increasing order. */
  function Positions(keys: seq<nat>, c: nat, n: nat): (ps: seq<nat>)
    requires n <= |keys|
    ensures |ps| <= n
    ensures forall k :: 0 <= k < |ps| ==> ps[k] < n && keys[ps[k]] == c
  {
    if n == 0 then [] else Positions(keys, c, n - 1) + (if keys[n - 1] == c then [n - 1] else [])
  }

  lemma {:induction false} PositionsIncreasing(keys: seq<nat>, c: nat, n: nat)
    requires n <= |keys|
    ensures forall k, l :: 0 <= k < l < |Positions(keys, c, n)| ==> Positions(keys, c, n)[k] < Positions(keys, c, n)[l]
  {
    if n > 0 {
      PositionsIncreasing(keys, c, n - 1);
    }
  }

  /** Positions(keys, c, n) is a prefix of Positions(keys, c, m) for n <= m. */
  lemma {:induction false} PositionsPrefix(keys: seq<nat>, c: nat, n: nat, m: nat)
    requires n <= m <= |keys|
    ensures |Positions(keys, c, n)| <= |Positions(keys, c, m)|
    ensures forall k :: 0 <= k < |Positions(keys, c, n)| ==> Positions(keys, c, m)[k] == Positions(keys, c, n)[k]
    decreases m - n
  {
    if n < m {
      PositionsPrefix(keys, c, n, m - 1);
    }
  }

  /** Every position q < n holding key c is listed. */
  lemma {:induction false} PositionsHas(keys: seq<nat>, c: nat, n: nat, q: nat) returns (k: nat)
    requires q < n <= |keys| && keys[q] == c
    ensures k < |Positions(keys, c, n)| && Positions(keys, c, n)[k] == q
  {
    if q == n - 1 {
      k := |Positions(keys, c, n - 1)|;
    } else {
      k := PositionsHas(keys, c, n - 1, q);
    }
  }

  /** The counting pass over the first n positions: `start[keys[i] + 1] += 1`, on m + 1 zeroed counters. */
  function Counts(keys: seq<nat>, m: nat, n: nat): (cnt: seq<int>)
    requires InRange(keys, m) && n <= |keys|
    ensures |cnt| == m + 1
  {
    if n == 0 then seq(m + 1, _ => 0)
    else
      var t := Counts(keys, m, n - 1);
      t[keys[n - 1] + 1 := t[keys[n - 1] + 1] + 1]
  }

  /** After n positions, counter c + 1 holds the number of positions of key c and the counters add up to n. */
  lemma {:induction false} CountsPositions(keys: seq<nat>, m: nat, n: nat)
    requires InRange(keys, m) && n <= |keys|
    ensures Counts(keys, m, n)[0] == 0
    ensures forall c :: 0 <= c < m ==> Counts(keys, m, n)[c + 1] == |Positions(keys, c, n)|
    ensures Sum(Counts(keys, m, n)) == n
  {
    if n == 0 {
      SumZeros(m + 1);
    } else {
      CountsPositions(keys, m, n - 1);
      var t := Counts(keys, m, n - 1);
      SumUpdate(t, keys[n - 1] + 1, 1);
    }
  }

  /**
   * The accumulation pass, `start[i + 1] += start[i]` for i < m. Its first
   * step adds start[0] = 0, so it is `finalize`'s accumulation.
   */
  function PrefixCounts(keys: seq<nat>, m: nat): (off: seq<int>)
    requires InRange(keys, m)
    ensures |off| == m + 1
  {
    Accumulate(Counts(keys, m, |keys|), m)
  }

  /** Offsets that give key c the slice [off[c], off[c + 1]) of length |Positions(keys, c, |keys|)| inside [0, |keys|). */
  predicate Partitions(keys: seq<nat>, m: nat, off: seq<int>)
  {
    && |off| == m + 1 && off[0] == 0 && off[m] == |keys|
    && (forall c :: 0 <= c < m ==> off[c + 1] - off[c] == |Positions(keys, c, |keys|)|)
    && (forall x, k :: 0 <= x <= k <= m ==> off[x] <= off[k])
  }

  /** Prefix sums of non-negative counts starting with 0: they start at 0, end at the total, and step by the counts. */
  lemma PrefixSumsShape(cnt: seq<int>, off: seq<int>)
    requires |cnt| == |off| > 0 && cnt[0] == 0
    requires forall k :: 0 <= k < |cnt| ==> cnt[k] >= 0
    requires forall k :: 0 <= k < |off| ==> off[k] == Sum(cnt[..k + 1])
    ensures off[0] == 0 && off[|off| - 1] == Sum(cnt)
    ensures forall c :: 0 <= c < |off| - 1 ==> off[c + 1] - off[c] == cnt[c + 1]
    ensures forall x, k :: 0 <= x <= k < |off| ==> off[x] <= off[k]
  {
    assert cnt[..|cnt|] == cnt;
    SumSnoc(cnt, 0);
    assert cnt[..0] == [];
    forall c | 0 <= c < |off| - 1
      ensures off[c + 1] - off[c] == cnt[c + 1]
    {
      SumSnoc(cnt, c + 1);
    }
    forall x, k | 0 <= x <= k < |off|
      ensures off[x] <= off[k]
    {
      PrefixSumMonotone(cnt, x, k);
    }
  }

  /** After the accumulation, entry k is the number of positions holding a key below k. */
  lemma PrefixCountsAreSums(keys: seq<nat>, m: nat)
    requires InRange(keys, m)
    ensures forall k :: 0 <= k <= m ==> PrefixCounts(keys, m)[k] == Sum(Counts(keys, m, |keys|)[..k + 1])
  {
    var cnt := Counts(keys, m, |keys|);
    CountsPositions(keys, m, |keys|);
    SumSnoc(cnt, 0);
    assert cnt[..0] == [];
  }

  /** The two passes partition [0, |keys|) into one slice per key, sized by its number of positions. */
  lemma PrefixCountsPartition(keys: seq<nat>, m: nat)
    requires InRange(keys, m)
    ensures Partitions(keys, m, PrefixCounts(keys, m))
  {
    var cnt := Counts(keys, m, |keys|);
    CountsPositions(keys, m, |keys|);
    assert forall k :: 0 <= k < |cnt| ==> cnt[k] >= 0 by {
      forall k | 0 <= k < |cnt|
        ensures cnt[k] >= 0
      {
        if k > 0 {
          assert cnt[k] == |Positions(keys, k - 1, |keys|)|;
        }
      }
    }
    PrefixCountsAreSums(keys, m);
    PrefixSumsShape(cnt, PrefixCounts(keys, m));
  }

  // ---------------------------------------------------------------------
  // Sorted keys: the slice of key c is where the keys equal c
  // ---------------------------------------------------------------------

  /** The number of positions q < n holding a key below k. */
  function Below(keys: seq<nat>, k: nat, n: nat): (b: nat)
    requires n <= |keys|
    ensures b <= n
  {
    if n == 0 then 0 else Below(keys, k, n - 1) + (if keys[n - 1] < k then 1 else 0)
  }

  /** Adding one at index x of s adds one to the prefix sums that reach x. */
  lemma PrefixSumUpdate(s: seq<int>, x: nat, k: nat)
    requires x < |s| && k < |s|
    ensures Sum(s[x := s[x] + 1][..k + 1]) == Sum(s[..k + 1]) + (if x <= k then 1 else 0)
  {
    if x <= k {
      assert s[x := s[x] + 1][..k + 1] == s[..k + 1][x := s[x] + 1];
      SumUpdate(s[..k + 1], x, 1);
    } else {
      assert s[x := s[x] + 1][..k + 1] == s[..k + 1];
    }
  }

  /** The counters up to k add up to the number of positions with a key below k. */
  lemma {:induction false} CountsBelow(keys: seq<nat>, m: nat, n: nat, k: nat)
    requires InRange(keys, m) && n <= |keys| && k <= m
    ensures Sum(Counts(keys, m, n)[..k + 1]) == Below(keys, k, n)
  {
    if n == 0 {
      assert Counts(keys, m, 0)[..k + 1] == seq(k + 1, _ => 0);
      SumZeros(k + 1);
    } else {
      CountsBelow(keys, m, n - 1, k);
      PrefixSumUpdate(Counts(keys, m, n - 1), keys[n - 1] + 1, k);
    }
  }

  lemma PrefixCountsBelow(keys: seq<nat>, m: nat, k: nat)
    requires InRange(keys, m) && k <= m
    ensures PrefixCounts(keys, m)[k] == Below(keys, k, |keys|)
  {
    PrefixCountsAreSums(keys, m);
    CountsBelow(keys, m, |keys|, k);
  }

  /** Positions from p on hold keys of at least k, so they add nothing below k. */
  lemma {:induction false} BelowStable(keys: seq<nat>, k: nat, p: nat, n: nat)
    requires p <= n <= |keys| && forall q :: p <= q < n ==> keys[q] >= k
    ensures Below(keys, k, n) == Below(keys, k, p)
    decreases n - p
  {
    if p < n {
      BelowStable(keys, k, p, n - 1);
    }
  }

  lemma {:induction false} BelowAll(keys: seq<nat>, k: nat, n: nat)
    requires n <= |keys| && forall q :: 0 <= q < n ==> keys[q] < k
    ensures Below(keys, k, n) == n
  {
    if n > 0 {
      BelowAll(keys, k, n - 1);
    }
  }

  lemma {:induction false} BelowMonotone(keys: seq<nat>, k: nat, p: nat, n: nat)
    requires p <= n <= |keys|
    ensures Below(keys, k, p) <= Below(keys, k, n)
    decreases n - p
  {
    if p < n {
      BelowMonotone(keys, k, p, n - 1);
    }
  }

  /** With non-decreasing keys, position p lies in the slice of its own key. */
  lemma SortedKeySlice(keys: seq<nat>, m: nat, p: nat)
    requires InRange(keys, m) && NonDecreasing(keys) && p < |keys|
    ensures PrefixCounts(keys, m)[keys[p]] <= p < PrefixCounts(keys, m)[keys[p] + 1]
  {
    var r := keys[p];
    PrefixCountsBelow(keys, m, r);
    PrefixCountsBelow(keys, m, r + 1);
    BelowStable(keys, r, p, |keys|);
    BelowAll(keys, r + 1, p + 1);
    BelowMonotone(keys, r + 1, p + 1, |keys|);
  }
}
