/**
 * `a(x, y)` of `sl4_rk.py`: the matrix of the wedge map
 * Λ^y A ⊗ A -> Λ^(y+1) A, e_S ⊗ e_j |-> e_S ∧ e_j, for dim A = x.
 *
 * Basis vectors of Λ^y A are the y-subsets of range(x) in the order
 * `itertools.combinations` lists them; column pdict[S] * x + j stands for
 * e_S ⊗ e_j, row pp1dict[S ∪ {j}] for e_(S ∪ {j}). The entry is the sign
 * (-1)^k of moving e_j past the k elements of S below j.
 *
 * The dense numpy array is modelled by the map of the entries the loops
 * write; every other entry is 0. Its shape `nCr(x, y + 1)` by
 * `nCr(x, y) * x` is taken exactly, as the number of combinations.
 */
module Sl4Projection {
  import opened Util

  // ---------------------------------------------------------------------
  // combinations(range(x), y)
  // ---------------------------------------------------------------------

  /** `combinations(range(lo, x), y)`: all y-subsets, as increasing lists, lexicographically. */
  function Comb(lo: nat, x: nat, y: nat): seq<seq<nat>>
    decreases x - lo, y
  {
    if y == 0 then [[]]
    else if lo >= x then []
    else Prepend(lo, Comb(lo + 1, x, y - 1)) + Comb(lo + 1, x, y)
  }

  function Prepend(v: nat, cs: seq<seq<nat>>): (r: seq<seq<nat>>)
    ensures |r| == |cs| && forall i :: 0 <= i < |cs| ==> r[i] == [v] + cs[i]
  {
    seq(|cs|, i requires 0 <= i < |cs| => [v] + cs[i])
  }

  predicate Increasing(c: seq<nat>)
  {
    forall a, b :: 0 <= a < b < |c| ==> c[a] < c[b]
  }

  /** c is a y-subset of range(lo, x), listed in increasing order. */
  predicate Combo(c: seq<nat>, lo: nat, x: nat, y: nat)
  {
    |c| == y && Increasing(c) && forall k :: 0 <= k < |c| ==> lo <= c[k] < x
  }

  predicate Distinct(cs: seq<seq<nat>>)
  {
    forall i, k :: 0 <= i < k < |cs| ==> cs[i] != cs[k]
  }

  /** The binomial coefficient by Pascal's rule: 0 when k > n. */
  function Binom(n: nat, k: nat): nat
  {
    if k == 0 then 1 else if n == 0 then 0 else Binom(n - 1, k - 1) + Binom(n - 1, k)
  }

  /** Every listed combination is a y-subset of range(lo, x). */
  lemma {:induction false} CombShape(lo: nat, x: nat, y: nat)
    ensures forall i :: 0 <= i < |Comb(lo, x, y)| ==> Combo(Comb(lo, x, y)[i], lo, x, y)
    decreases x - lo, y
  {
    if y > 0 && lo < x {
      CombShape(lo + 1, x, y - 1);
      CombShape(lo + 1, x, y);
      var P := Prepend(lo, Comb(lo + 1, x, y - 1));
      forall i | 0 <= i < |P|
        ensures Combo(P[i], lo, x, y)
      {
        var c := Comb(lo + 1, x, y - 1)[i];
        assert P[i] == [lo] + c;
        assert forall k :: 1 <= k < |P[i]| ==> P[i][k] == c[k - 1];
      }
      assert Comb(lo, x, y) == P + Comb(lo + 1, x, y);
    }
  }

  lemma CombSplit(lo: nat, x: nat, y: nat)
    requires y > 0 && lo < x
    ensures Comb(lo, x, y) == Prepend(lo, Comb(lo + 1, x, y - 1)) + Comb(lo + 1, x, y)
  {
  }

  lemma PrependMember(v: nat, A: seq<seq<nat>>, d: seq<nat>)
    requires d in A
    ensures [v] + d in Prepend(v, A)
  {
    var i :| 0 <= i < |A| && A[i] == d;
    assert Prepend(v, A)[i] == [v] + d;
  }

  /** A y-subset whose least element is lo is lo followed by a (y - 1)-subset of range(lo + 1, x). */
  lemma ComboTail(c: seq<nat>, lo: nat, x: nat, y: nat)
    requires Combo(c, lo, x, y) && y > 0 && c[0] == lo
    ensures Combo(c[1..], lo + 1, x, y - 1) && c == [lo] + c[1..]
  {
    assert forall k :: 0 <= k < |c| - 1 ==> c[1..][k] == c[k + 1] && c[0] < c[k + 1];
  }

  /** A y-subset whose least element exceeds lo is a y-subset of range(lo + 1, x). */
  lemma ComboAbove(c: seq<nat>, lo: nat, x: nat, y: nat)
    requires Combo(c, lo, x, y) && y > 0 && c[0] != lo
    ensures Combo(c, lo + 1, x, y)
  {
    assert forall k :: 0 <= k < |c| ==> c[0] <= c[k];
  }

  /** Every y-subset of range(lo, x) is listed. */
  lemma {:induction false} CombComplete(lo: nat, x: nat, y: nat, c: seq<nat>)
    requires Combo(c, lo, x, y)
    ensures c in Comb(lo, x, y)
    decreases x - lo, y
  {
    if y == 0 {
      assert c == [];
    } else {
      assert lo <= c[0] < x;
      CombSplit(lo, x, y);
      if c[0] == lo {
        ComboTail(c, lo, x, y);
        CombComplete(lo + 1, x, y - 1, c[1..]);
        PrependMember(lo, Comb(lo + 1, x, y - 1), c[1..]);
      } else {
        ComboAbove(c, lo, x, y);
        CombComplete(lo + 1, x, y, c);
      }
    }
  }

  /** No combination is listed twice. */
  lemma {:induction false} CombDistinct(lo: nat, x: nat, y: nat)
    ensures Distinct(Comb(lo, x, y))
    decreases x - lo, y
  {
    if y > 0 && lo < x {
      CombDistinct(lo + 1, x, y - 1);
      CombDistinct(lo + 1, x, y);
      CombShape(lo + 1, x, y);
      var A := Comb(lo + 1, x, y - 1);
      var P := Prepend(lo, A);
      var B := Comb(lo + 1, x, y);
      forall i, k | 0 <= i < k < |P|
        ensures P[i] != P[k]
      {
        assert P[i][1..] == A[i] && P[k][1..] == A[k];
      }
      forall i, k | 0 <= i < |P| && 0 <= k < |B|
        ensures P[i] != B[k]
      {
        assert P[i][0] == lo && Combo(B[k], lo + 1, x, y);
      }
      assert Comb(lo, x, y) == P + B;
    }
  }

  /** range(lo, x) has Binom(x - lo, y) combinations of y elements. */
  lemma {:induction false} CombCount(lo: nat, x: nat, y: nat)
    requires lo <= x
    ensures |Comb(lo, x, y)| == Binom(x - lo, y)
    decreases x - lo, y
  {
    if y > 0 && lo < x {
      CombCount(lo + 1, x, y - 1);
      CombCount(lo + 1, x, y);
    }
  }

  // ---------------------------------------------------------------------
  // The dictionaries, sorted(S + (j,)) and Sp.index(j)
  // ---------------------------------------------------------------------

  // `Sp.index(j)` is Util.IndexOf; j always occurs in Sp here, so the
  // ValueError Python raises for a missing element never arises.

  /** A lookup `{s: i for i, s in enumerate(cs)}[c]`: the last index of c, or -1 when c is no key. */
  function LastIndex(cs: seq<seq<nat>>, c: seq<nat>): (i: int)
    ensures -1 <= i < |cs|
    ensures i >= 0 ==> cs[i] == c
    ensures i < 0 ==> c !in cs
  {
    if |cs| == 0 then -1
    else if cs[|cs| - 1] == c then |cs| - 1
    else LastIndex(cs[..|cs| - 1], c)
  }

  lemma LastIndexDistinct(cs: seq<seq<nat>>, t: nat)
    requires Distinct(cs) && t < |cs|
    ensures LastIndex(cs, cs[t]) == t
  {
    var i := LastIndex(cs, cs[t]);
    assert cs[i] == cs[t];
  }

  /** The number of elements of S below j. */
  function Pos(S: seq<nat>, j: nat): (p: nat)
    ensures p <= |S|
  {
    if |S| == 0 then 0 else (if S[0] < j then 1 else 0) + Pos(S[1..], j)
  }

  /** `tuple(sorted(S + (j,)))` for an increasing S: j goes after the elements below it. */
  function SortedInsert(S: seq<nat>, j: nat): seq<nat>
  {
    S[..Pos(S, j)] + [j] + S[Pos(S, j)..]
  }

  /** In an increasing S the elements below j are exactly the first Pos(S, j). */
  lemma {:induction false} PosSplits(S: seq<nat>, j: nat)
    requires Increasing(S)
    ensures forall k :: 0 <= k < Pos(S, j) ==> S[k] < j
    ensures forall k :: Pos(S, j) <= k < |S| ==> S[k] >= j
  {
    if |S| > 0 {
      assert Increasing(S[1..]);
      PosSplits(S[1..], j);
      if S[0] >= j {
        assert forall k :: 0 <= k < |S| ==> S[0] <= S[k];
      }
    }
  }

  /** Where the elements of S land in SortedInsert(S, j). */
  lemma SortedInsertAt(S: seq<nat>, j: nat)
    ensures |SortedInsert(S, j)| == |S| + 1
    ensures forall k :: 0 <= k < Pos(S, j) ==> SortedInsert(S, j)[k] == S[k]
    ensures SortedInsert(S, j)[Pos(S, j)] == j
    ensures forall k :: Pos(S, j) < k <= |S| ==> SortedInsert(S, j)[k] == S[k - 1]
  {
  }

  /** j lands strictly between the elements below it and those above it. */
  lemma InsertIncreasing(S: seq<nat>, j: nat)
    requires Increasing(S) && j !in S
    ensures Increasing(SortedInsert(S, j))
  {
    var p := Pos(S, j);
    var Sp := SortedInsert(S, j);
    PosSplits(S, j);
    SortedInsertAt(S, j);
    forall k | p <= k < |S|
      ensures S[k] > j
    {
      assert S[k] in S;
    }
    forall a, b | 0 <= a < b < |Sp|
      ensures Sp[a] < Sp[b]
    {
      if b < p {
      } else if b == p {
      } else if a < p {
      } else if a == p {
      } else {
        assert Sp[a] == S[a - 1] && Sp[b] == S[b - 1];
      }
    }
  }

  lemma InsertElements(S: seq<nat>, j: nat)
    ensures multiset(SortedInsert(S, j)) == multiset(S) + multiset{j}
  {
    var p := Pos(S, j);
    assert S == S[..p] + S[p..];
  }

  /**
   * Inserting j, absent from the y-subset S of range(x), gives the
   * (y + 1)-subset S ∪ {j} sorted, with j at the index Pos(S, j): it is
   * `sorted(S + (j,))`, the only increasing arrangement of those elements.
   */
  lemma InsertCombo(S: seq<nat>, j: nat, x: nat, y: nat)
    requires Combo(S, 0, x, y) && j < x && j !in S
    ensures Combo(SortedInsert(S, j), 0, x, y + 1)
    ensures multiset(SortedInsert(S, j)) == multiset(S) + multiset{j}
    ensures IndexOf(SortedInsert(S, j), j) == Pos(S, j)
  {
    var p := Pos(S, j);
    var Sp := SortedInsert(S, j);
    SortedInsertAt(S, j);
    InsertIncreasing(S, j);
    InsertElements(S, j);
    assert forall k :: 0 <= k < |Sp| ==> Sp[k] == j || Sp[k] in S;
    PosSplits(S, j);
    IndexOfFirst(Sp, j, p);
  }

  // ---------------------------------------------------------------------
  // The matrix
  // ---------------------------------------------------------------------

  /** The array: its shape and the entries written; the rest are 0. */
  datatype Wedge = Wedge(rows: nat, cols: nat, entries: map<(nat, nat), int>)

  function Get(M: map<(nat, nat), int>, r: nat, c: nat): int
  {
    if (r, c) in M then M[(r, c)] else 0
  }

  /**
   * Entry (r, c): column c = t * x + j stands for S = cs[t] and j. When j is
   * not in S, the row of sorted S ∪ {j} holds (-1)^(index of j in it).
   */
  function Expected(x: nat, cs: seq<seq<nat>>, cs1: seq<seq<nat>>, r: nat, c: nat): int
    requires 0 < x
  {
    var t: nat, j: nat := c / x, c % x;
    if t >= |cs| || j in cs[t] then 0
    else
      var Sp := SortedInsert(cs[t], j);
      if r < |cs1| && cs1[r] == Sp then Pow(-1, IndexOf(Sp, j)) else 0
  }

  /** The first `done` columns are written as Expected says, and nothing else. */
  ghost predicate Filled(x: nat, cs: seq<seq<nat>>, cs1: seq<seq<nat>>, M: map<(nat, nat), int>, done: nat)
    requires 0 < x
  {
    && (forall key :: key in M ==> key.0 < |cs1| && key.1 < done)
    && forall r: nat, c: nat :: r < |cs1| && c < done ==> Get(M, r, c) == Expected(x, cs, cs1, r, c)
  }

  /** The matrix a(x, y) returns: (nCr(x, y + 1)) x (nCr(x, y) * x), entries as Expected says. */
  ghost predicate WedgeMatrix(x: nat, y: nat, W: Wedge)
    requires 0 < x
  {
    var cs, cs1 := Comb(0, x, y), Comb(0, x, y + 1);
    && W.rows == |cs1| && W.cols == |cs| * x
    && Filled(x, cs, cs1, W.entries, W.cols)
  }

  /** The column `pdict[S] * x + j` of S, the t-th combination, and j. */
  function Column(t: nat, x: nat, j: nat): nat
  {
    t * x + j
  }

  /** Column t * x + j is t's combination and j. */
  lemma ColumnOf(x: nat, t: nat, j: nat)
    requires j < x
    ensures (t * x + j) / x == t && (t * x + j) % x == j
  {
    ModUnique(t * x + j, x, t, j);
  }

  /** A skipped j, already in S, leaves column t * x + j zero. */
  lemma FillSkip(x: nat, cs: seq<seq<nat>>, cs1: seq<seq<nat>>, M: map<(nat, nat), int>, t: nat, j: nat)
    requires 0 < x && t < |cs| && j < x && j in cs[t]
    requires Filled(x, cs, cs1, M, Column(t, x, j))
    ensures Filled(x, cs, cs1, M, Column(t, x, j + 1))
  {
    ColumnOf(x, t, j);
  }

  /** Writing the sign at (pp1dict[Sp], pdict[S] * x + j) fills column t * x + j. */
  lemma FillWrite(x: nat, cs: seq<seq<nat>>, cs1: seq<seq<nat>>, M: map<(nat, nat), int>, t: nat, j: nat, ix: nat)
    requires 0 < x && t < |cs| && j < x && j !in cs[t]
    requires ix < |cs1| && cs1[ix] == SortedInsert(cs[t], j) && Distinct(cs1)
    requires Filled(x, cs, cs1, M, Column(t, x, j))
    ensures Filled(x, cs, cs1, M[(ix, Column(t, x, j)) := Pow(-1, IndexOf(SortedInsert(cs[t], j), j))], Column(t, x, j + 1))
  {
    var c0 := Column(t, x, j);
    var sgn := Pow(-1, IndexOf(SortedInsert(cs[t], j), j));
    var M' := M[(ix, c0) := sgn];
    forall r: nat, c: nat | r < |cs1| && c < c0 + 1
      ensures Get(M', r, c) == Expected(x, cs, cs1, r, c)
    {
      if c == c0 {
        ColumnOf(x, t, j);
        assert (r, c0) !in M;
        if r != ix && cs1[r] == SortedInsert(cs[t], j) {
          DistinctIndex(cs1, r, ix);
        }
      } else {
        assert Get(M', r, c) == Get(M, r, c);
      }
    }
  }

  /** In a list without repeats equal entries sit at the same index. */
  lemma DistinctIndex(cs: seq<seq<nat>>, a: nat, b: nat)
    requires Distinct(cs) && a < |cs| && b < |cs| && cs[a] == cs[b]
    ensures a == b
  {
  }

  /**
   * One write of the inner loop: S = cs[t] lacks j, so Sp = sorted(S + (j,))
   * is a key of pp1dict, pdict[S] is t, and writing the sign fills column
   * t * x + j.
   */
  lemma WriteStep(x: nat, y: nat, cs: seq<seq<nat>>, cs1: seq<seq<nat>>, M: map<(nat, nat), int>, t: nat, j: nat, ix: int, pt: int)
    requires 0 < x && cs == Comb(0, x, y) && cs1 == Comb(0, x, y + 1)
    requires t < |cs| && j < x && j !in cs[t]
    requires ix == LastIndex(cs1, SortedInsert(cs[t], j)) && pt == LastIndex(cs, cs[t])
    requires Filled(x, cs, cs1, M, Column(t, x, j))
    ensures 0 <= ix && pt == t
    ensures Filled(x, cs, cs1, M[(ix, Column(pt, x, j)) := Pow(-1, IndexOf(SortedInsert(cs[t], j), j))], Column(t, x, j + 1))
  {
    var Sp := SortedInsert(cs[t], j);
    CombShape(0, x, y);
    CombDistinct(0, x, y);
    CombDistinct(0, x, y + 1);
    InsertCombo(cs[t], j, x, y);
    CombComplete(0, x, y + 1, Sp);
    LastIndexDistinct(cs, t);
    FillWrite(x, cs, cs1, M, t, j, LastIndex(cs1, Sp));
  }

  /** After the x columns of combination t come those of t + 1. */
  lemma FillRow(x: nat, cs: seq<seq<nat>>, cs1: seq<seq<nat>>, M: map<(nat, nat), int>, t: nat)
    requires 0 < x && Filled(x, cs, cs1, M, Column(t, x, x))
    ensures Filled(x, cs, cs1, M, Column(t + 1, x, 0))
  {
    assert t * x + x == (t + 1) * x;
  }

  /**
   * `a(x, y)`. The shape uses `nCr(x, y + 1)`, whose factorial of x - y - 1
   * raises ValueError when y >= x; otherwise each column S, j with j not in S
   * gets the sign (-1)^(Sp.index(j)) in the row of Sp = sorted(S + (j,)).
   */
  method ProjectionMatrix(x: nat, y: nat) returns (r: Result<Wedge>)
    ensures r.Failure? <==> x <= y
    ensures r.Ok? ==> 0 < x && WedgeMatrix(x, y, r.value)
  {
    if x <= y {
      return Failure("factorial() not defined for negative values");
    }
    var cs := Comb(0, x, y);
    var cs1 := Comb(0, x, y + 1);
    var M: map<(nat, nat), int> := map[];
    var t := 0;
    while t < |cs|
      invariant t <= |cs|
      invariant Filled(x, cs, cs1, M, Column(t, x, 0))
    {
      var S := cs[t];
      var j: nat := 0;
      while j < x
        invariant j <= x
        invariant Filled(x, cs, cs1, M, Column(t, x, j))
      {
        if j in S {
          FillSkip(x, cs, cs1, M, t, j);
        } else {
          var Sp := SortedInsert(S, j);
          var ix := LastIndex(cs1, Sp);
          var pt := LastIndex(cs, S);
          WriteStep(x, y, cs, cs1, M, t, j, ix, pt);
          M := M[(ix, Column(pt, x, j)) := Pow(-1, IndexOf(Sp, j))];
        }
        j := j + 1;
      }
      FillRow(x, cs, cs1, M, t);
      t := t + 1;
    }
    r := Ok(Wedge(|cs1|, |cs| * x, M));
  }

  /**
   * The meaning of each column of a(x, y): for S the t-th y-subset and j in
   * S the column is zero; otherwise exactly one row holds a nonzero, the row
   * of the (y + 1)-subset S ∪ {j}, and it holds (-1)^k for the k elements of
   * S below j.
   */
  lemma WedgeColumn(x: nat, y: nat, t: nat, j: nat, r: nat)
    requires 0 < x && t < |Comb(0, x, y)| && j < x
    ensures var cs, cs1 := Comb(0, x, y), Comb(0, x, y + 1);
      var e := Expected(x, cs, cs1, r, t * x + j);
      && (j in cs[t] ==> e == 0)
      && (j !in cs[t] ==>
            (e != 0 <==> r < |cs1| && multiset(cs1[r]) == multiset(cs[t]) + multiset{j})
            && (e != 0 ==> e == Pow(-1, Pos(cs[t], j))))
  {
    var cs, cs1 := Comb(0, x, y), Comb(0, x, y + 1);
    ColumnOf(x, t, j);
    if j !in cs[t] {
      CombShape(0, x, y);
      CombShape(0, x, y + 1);
      InsertCombo(cs[t], j, x, y);
      PowSign(IndexOf(SortedInsert(cs[t], j), j));
      if r < |cs1| && multiset(cs1[r]) == multiset(cs[t]) + multiset{j} {
        SameElementsSame(cs1[r], SortedInsert(cs[t], j), x, y + 1);
      }
    }
  }

  /** (-1)^k is 1 or -1. */
  lemma {:induction false} PowSign(k: nat)
    ensures Pow(-1, k) == 1 || Pow(-1, k) == -1
  {
    if k > 0 {
      PowSign(k - 1);
    }
  }

  /** Two increasing lists with the same elements are equal: a sorted arrangement is unique. */
  lemma {:induction false} SameElementsSame(a: seq<nat>, b: seq<nat>, x: nat, y: nat)
    requires Combo(a, 0, x, y) && Combo(b, 0, x, y) && multiset(a) == multiset(b)
    ensures a == b
  {
    if |a| > 0 {
      SameLeast(a, b);
      MultisetTail(a, b);
      ComboDrop(a, x, y);
      ComboDrop(b, x, y);
      SameElementsSame(a[1..], b[1..], x, y - 1);
      ConsEqual(a, b);
    }
  }

  /** Increasing lists with the same elements start alike. */
  lemma SameLeast(a: seq<nat>, b: seq<nat>)
    requires |a| > 0 && Increasing(a) && Increasing(b) && multiset(a) == multiset(b)
    ensures |b| > 0 && a[0] == b[0]
  {
    assert a[0] in multiset(b);
    var i :| 0 <= i < |b| && b[i] == a[0];
    assert b[0] in multiset(a);
    var k :| 0 <= k < |a| && a[k] == b[0];
    assert b[0] <= b[i] && a[0] <= a[k];
  }

  lemma MultisetCons(s: seq<nat>)
    requires |s| > 0
    ensures multiset(s) == multiset{s[0]} + multiset(s[1..])
  {
    assert s == [s[0]] + s[1..];
  }

  lemma MultisetTail(a: seq<nat>, b: seq<nat>)
    requires |a| > 0 && |b| > 0 && a[0] == b[0] && multiset(a) == multiset(b)
    ensures multiset(a[1..]) == multiset(b[1..])
  {
    MultisetCons(a);
    MultisetCons(b);
    assert multiset(a[1..]) == multiset(a) - multiset{a[0]};
    assert multiset(b[1..]) == multiset(b) - multiset{b[0]};
  }

  lemma ConsEqual(a: seq<nat>, b: seq<nat>)
    requires |a| > 0 && |b| > 0 && a[0] == b[0] && a[1..] == b[1..]
    ensures a == b
  {
    assert a == [a[0]] + a[1..] && b == [b[0]] + b[1..];
  }

  lemma ComboDrop(c: seq<nat>, x: nat, y: nat)
    requires Combo(c, 0, x, y) && y > 0
    ensures Combo(c[1..], 0, x, y - 1)
  {
    assert forall k :: 0 <= k < |c| - 1 ==> c[1..][k] == c[k + 1];
  }
}
