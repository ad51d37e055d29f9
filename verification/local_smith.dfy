/**
 * `prime_power_rankin` and `operator()` of `PowerGaussDomain`: the choice of
 * elimination strategy from the bits of `StaticParameters`, and the reading
 * of the local Smith form off the ranks modulo PRIME, PRIME^2, ..., PRIME^e.
 * The invariant factor PRIME^i occurs ranks[i] - ranks[i-1] times (with
 * ranks[-1] = 0); `operator()` lists the (multiplicity, PRIME^i) pairs whose
 * multiplicity is positive.
 */
module LocalSmith {
  import opened Util
  import opened SparseRows
  import opened PowerGaussRank

  // ---------------------------------------------------------------------
  // Strategy flags
  // ---------------------------------------------------------------------

  const PRIVILEGIATE_NO_COLUMN_PIVOTING: bv32 := 1
  const PRIVILEGIATE_REDUCING_FILLIN: bv32 := 2
  const PRESERVE_UPPER_MATRIX: bv32 := 4

  /** The two template switches of `gauss_rankin` selected by `StaticParameters`. */
  datatype Strategy = Strategy(noColumnPivoting: bool, preserveUpper: bool)

  /**
   * The dispatch of `prime_power_rankin`: `PRIVILEGIATE_NO_COLUMN_PIVOTING &
   * StaticParameters` picks the same-column heuristic, `PRESERVE_UPPER_MATRIX
   * & StaticParameters` keeps the pivot rows.
   */
  function StrategyOf(params: bv32): (s: Strategy)
    ensures s.noColumnPivoting <==> params & 1 == 1
    ensures s.preserveUpper <==> (params >> 2) & 1 == 1
  {
    Strategy(PRIVILEGIATE_NO_COLUMN_PIVOTING & params != 0, PRESERVE_UPPER_MATRIX & params != 0)
  }

  /** The default `StaticParameters`: same-column pivoting on, the upper matrix cleared. */
  lemma DefaultStrategy()
    ensures StrategyOf(PRIVILEGIATE_NO_COLUMN_PIVOTING) == Strategy(true, false)
  {
  }

  /** No branch reads the `PRIVILEGIATE_REDUCING_FILLIN` bit: flipping it selects the same strategy. */
  lemma ReducingFillinIgnored(params: bv32)
    ensures StrategyOf(params ^ PRIVILEGIATE_REDUCING_FILLIN) == StrategyOf(params)
  {
  }

  /** The strategy depends on bits 0 and 2 only; each of the four combinations is reachable. */
  lemma StrategiesReachable(s: Strategy)
    ensures StrategyOf((if s.noColumnPivoting then 1 else 0) | (if s.preserveUpper then 4 else 0)) == s
  {
  }

  /**
   * `prime_power_rankin`: `gauss_rankin` with the strategy chosen by
   * `StaticParameters`.
   */
  method PrimePowerRankin(FMOD: int, PRIME: int, e: nat, A0: seq<Row>, Q0: seq<nat>, Nj: nat, params: bv32)
    returns (ranks: seq<nat>, A: seq<Row>, Q: seq<nat>, rank: nat)
    requires PRIME >= 2 && FMOD == Pow(PRIME, e) && |A0| >= 1 && |Q0| == Nj
    requires forall i :: 0 <= i < |A0| ==> Sorted(A0[i]) && ColsBelow(A0[i], Nj)
    ensures |A| == |A0| && |Q| == Nj && multiset(Q) == multiset(Q0)
    ensures |ranks| == e && RanksUpTo(ranks, rank) && (e > 0 ==> ranks[e - 1] == rank)
    ensures e == 0 ==> rank == 0
    ensures rank <= |A0| && rank <= Nj
    ensures params & PRESERVE_UPPER_MATRIX == 0 ==> forall i :: 0 <= i < |A0| - 1 ==> A[i] == []
    ensures params & PRESERVE_UPPER_MATRIX != 0 ==> Echelon(PRIME, A, |A0|) && PivotRows(A, |A0|) == rank
  {
    var s := StrategyOf(params);
    ranks, A, Q, rank := GaussRankin(PRIME, FMOD, e, A0, Q0, Nj, s.noColumnPivoting, s.preserveUpper);
  }

  // ---------------------------------------------------------------------
  // operator(): the local Smith form from the ranks
  // ---------------------------------------------------------------------

  /** `size_t` arithmetic: the result of a subtraction taken modulo 2^64. */
  const SIZE_T_RANGE: int := 0x1_0000_0000_0000_0000

  function SizeSub(a: nat, b: nat): (d: nat)
    ensures d < SIZE_T_RANGE
    ensures b <= a < b + SIZE_T_RANGE ==> d == a - b
  {
    (a - b) % SIZE_T_RANGE
  }

  /** One invariant factor: PRIME^i with its multiplicity. */
  type Factor = (nat, int)

  /**
   * The loop of `operator()` from the current iterator on: `diff = *it - num`
   * in `size_t`; `(diff, MOD)` is pushed when diff is non-zero; `MOD *= PRIME;
   * num = *it`.
   */
  function FactorsFrom(ranks: seq<nat>, PRIME: int, num: nat, MOD: int): (L: seq<Factor>)
    ensures |L| <= |ranks|
  {
    if |ranks| == 0 then []
    else
      var diff := SizeSub(ranks[0], num);
      (if diff > 0 then [(diff, MOD)] else []) + FactorsFrom(ranks[1..], PRIME, ranks[0], MOD * PRIME)
  }

  /** `operator()` after the ranks are known: L starts empty, MOD at 1 and num at 0. */
  function Factors(ranks: seq<nat>, PRIME: int): (L: seq<Factor>)
    ensures |L| <= |ranks|
  {
    FactorsFrom(ranks, PRIME, 0, 1)
  }

  /** How many invariant factors equal PRIME^i: the rank gained at step i. */
  function Gain(ranks: seq<nat>, i: nat): int
    requires i < |ranks|
  {
    ranks[i] as int - (if i == 0 then 0 else ranks[i - 1] as int)
  }

  /**
   * The local Smith form read directly: for i from `from` on, the pair
   * (Gain(ranks, i), PRIME^i) whenever the gain is positive.
   */
  function SmithForm(ranks: seq<nat>, PRIME: int, from: nat): (L: seq<Factor>)
    requires from <= |ranks|
    decreases |ranks| - from
  {
    if from == |ranks| then []
    else
      var g := Gain(ranks, from);
      (if g > 0 then [(g as nat, Pow(PRIME, from))] else []) + SmithForm(ranks, PRIME, from + 1)
  }

  predicate NonDecreasing(ranks: seq<nat>)
  {
    forall i, j :: 0 <= i <= j < |ranks| ==> ranks[i] <= ranks[j]
  }

  /**
   * On non-decreasing ranks below 2^64 the loop of `operator()` is the local
   * Smith form: the size_t differences are the true gains and MOD is PRIME^i
   * at step i.
   */
  lemma {:induction false} FactorsAreSmithForm(ranks: seq<nat>, PRIME: int, from: nat)
    requires NonDecreasing(ranks) && from <= |ranks|
    requires forall i :: 0 <= i < |ranks| ==> ranks[i] < SIZE_T_RANGE
    ensures FactorsFrom(ranks[from..], PRIME, if from == 0 then 0 else ranks[from - 1], Pow(PRIME, from))
      == SmithForm(ranks, PRIME, from)
    decreases |ranks| - from
  {
    if from < |ranks| {
      var num := if from == 0 then 0 else ranks[from - 1];
      FactorsAreSmithForm(ranks, PRIME, from + 1);
      assert ranks[from..][1..] == ranks[from + 1..];
      assert Pow(PRIME, from) * PRIME == Pow(PRIME, from + 1) by {
        PowSucc(PRIME, from);
      }
    }
  }

  lemma PowSucc(P: int, i: nat)
    ensures Pow(P, i) * P == Pow(P, i + 1)
  {
  }

  /** Sum of the multiplicities of a list of factors. */
  function Multiplicity(L: seq<Factor>): int
  {
    if |L| == 0 then 0 else L[0].0 + Multiplicity(L[1..])
  }

  lemma MultiplicityAppend(A: seq<Factor>, B: seq<Factor>)
    ensures Multiplicity(A + B) == Multiplicity(A) + Multiplicity(B)
  {
    if |A| == 0 {
      assert A + B == B;
    } else {
      assert (A + B)[0] == A[0] && (A + B)[1..] == A[1..] + B;
      MultiplicityAppend(A[1..], B);
    }
  }

  /** The multiplicities of the local Smith form from step `from` on add up to the rank gained since. */
  lemma {:induction false} SmithFormCountsRank(ranks: seq<nat>, PRIME: int, from: nat)
    requires NonDecreasing(ranks) && from < |ranks|
    ensures Multiplicity(SmithForm(ranks, PRIME, from)) == ranks[|ranks| - 1] - (if from == 0 then 0 else ranks[from - 1])
    decreases |ranks| - from
  {
    var g := Gain(ranks, from);
    var head: seq<Factor> := if g > 0 then [(g as nat, Pow(PRIME, from))] else [];
    MultiplicityAppend(head, SmithForm(ranks, PRIME, from + 1));
    if from + 1 < |ranks| {
      SmithFormCountsRank(ranks, PRIME, from + 1);
    }
  }

  /** f is the factor of a positive rank gain at some step i in [from, |ranks|). */
  predicate GainAt(ranks: seq<nat>, PRIME: int, from: nat, f: Factor)
  {
    exists i :: from <= i < |ranks| && Gain(ranks, i) > 0 && f == (Gain(ranks, i) as nat, Pow(PRIME, i))
  }

  /** Every factor of the local Smith form is PRIME^i for a step i at or after `from` with positive gain. */
  lemma {:induction false} SmithFormEntries(ranks: seq<nat>, PRIME: int, from: nat)
    requires from <= |ranks|
    ensures forall x :: 0 <= x < |SmithForm(ranks, PRIME, from)| ==> GainAt(ranks, PRIME, from, SmithForm(ranks, PRIME, from)[x])
    decreases |ranks| - from
  {
    if from < |ranks| {
      SmithFormEntries(ranks, PRIME, from + 1);
      var g := Gain(ranks, from);
      var head: seq<Factor> := if g > 0 then [(g as nat, Pow(PRIME, from))] else [];
      var rest := SmithForm(ranks, PRIME, from + 1);
      var L := SmithForm(ranks, PRIME, from);
      assert L == head + rest;
      forall x | 0 <= x < |L|
        ensures GainAt(ranks, PRIME, from, L[x])
      {
        if x < |head| {
          assert L[x] == (Gain(ranks, from) as nat, Pow(PRIME, from));
        } else {
          assert L[x] == rest[x - |head|];
          assert GainAt(ranks, PRIME, from + 1, rest[x - |head|]);
          var i :| from + 1 <= i < |ranks| && Gain(ranks, i) > 0 && rest[x - |head|] == (Gain(ranks, i) as nat, Pow(PRIME, i));
        }
      }
    }
  }

  /** Conversely every positive gain appears in the local Smith form. */
  lemma {:induction false} SmithFormComplete(ranks: seq<nat>, PRIME: int, from: nat, i: nat)
    requires from <= i < |ranks| && Gain(ranks, i) > 0
    ensures (Gain(ranks, i) as nat, Pow(PRIME, i)) in SmithForm(ranks, PRIME, from)
    decreases i - from
  {
    if from < i {
      SmithFormComplete(ranks, PRIME, from + 1, i);
    }
  }

  /** Every modulus of L is at least m. */
  predicate ModuliAtLeast(L: seq<Factor>, m: int)
  {
    forall x :: 0 <= x < |L| ==> L[x].1 >= m
  }

  /** The moduli of L strictly increase. */
  predicate StrictlyIncreasing(L: seq<Factor>)
  {
    forall x, y :: 0 <= x < y < |L| ==> L[x].1 < L[y].1
  }

  /** With PRIME >= 2 the moduli of the local Smith form strictly increase, from PRIME^from on. */
  lemma {:induction false} SmithFormIncreasing(ranks: seq<nat>, PRIME: int, from: nat)
    requires PRIME >= 2 && from <= |ranks|
    ensures ModuliAtLeast(SmithForm(ranks, PRIME, from), Pow(PRIME, from))
    ensures StrictlyIncreasing(SmithForm(ranks, PRIME, from))
    decreases |ranks| - from
  {
    if from < |ranks| {
      SmithFormIncreasing(ranks, PRIME, from + 1);
      PowStrict(PRIME, from);
      var g := Gain(ranks, from);
      var head: seq<Factor> := if g > 0 then [(g as nat, Pow(PRIME, from))] else [];
      var rest := SmithForm(ranks, PRIME, from + 1);
      var L := SmithForm(ranks, PRIME, from);
      assert L == head + rest;
      assert ModuliAtLeast(rest, Pow(PRIME, from + 1));
      forall x | 0 <= x < |L|
        ensures L[x].1 >= Pow(PRIME, from)
        ensures x >= |head| ==> L[x].1 > Pow(PRIME, from)
      {
        if x >= |head| {
          assert L[x] == rest[x - |head|];
        } else {
          assert L[x] == head[x];
        }
      }
      forall x, y | 0 <= x < y < |L|
        ensures L[x].1 < L[y].1
      {
        if x >= |head| {
          assert L[x] == rest[x - |head|] && L[y] == rest[y - |head|];
        }
      }
    }
  }

  lemma PowStrict(P: int, i: nat)
    requires P >= 2
    ensures 0 < Pow(P, i) < Pow(P, i + 1)
  {
    PowPositive(P, i);
  }

  /**
   * `operator()`: the ranks modulo PRIME, ..., PRIME^e, then the pairs
   * (multiplicity, PRIME^i) of the local Smith form. The multiplicities add
   * up to the last rank computed (the number of pivots found), the moduli strictly increase, and every
   * pair is a positive rank gain at its power of PRIME.
   */
  method LocalSmithForm(A0: seq<Row>, Q0: seq<nat>, Nj: nat, FMOD: int, PRIME: int, e: nat, params: bv32)
    returns (ranks: seq<nat>, L: seq<Factor>, A: seq<Row>, Q: seq<nat>, rank: nat)
    requires PRIME >= 2 && FMOD == Pow(PRIME, e) && |A0| >= 1 && |Q0| == Nj
    requires forall i :: 0 <= i < |A0| ==> Sorted(A0[i]) && ColsBelow(A0[i], Nj)
    requires |A0| < SIZE_T_RANGE
    ensures multiset(Q) == multiset(Q0) && rank <= |A0| && rank <= Nj
    ensures |ranks| == e && L == SmithForm(ranks, PRIME, 0)
    ensures Multiplicity(L) == rank
    ensures StrictlyIncreasing(L)
    ensures forall x :: 0 <= x < |L| ==> L[x].0 > 0 && GainAt(ranks, PRIME, 0, L[x])
  {
    ranks, A, Q, rank := PrimePowerRankin(FMOD, PRIME, e, A0, Q0, Nj, params);
    L := Factors(ranks, PRIME);
    RanksBounded(ranks, rank, |A0|);
    FactorsAreSmithForm(ranks, PRIME, 0);
    assert ranks[0..] == ranks;
    SmithFormIncreasing(ranks, PRIME, 0);
    SmithFormEntries(ranks, PRIME, 0);
    if e > 0 {
      SmithFormCountsRank(ranks, PRIME, 0);
    }
  }

  /** Ranks that never exceed the final rank are non-decreasing and fit in size_t. */
  lemma RanksBounded(ranks: seq<nat>, rank: nat, n: nat)
    requires RanksUpTo(ranks, rank) && rank <= n < SIZE_T_RANGE
    ensures NonDecreasing(ranks)
    ensures forall i :: 0 <= i < |ranks| ==> ranks[i] < SIZE_T_RANGE
  {
  }
}
