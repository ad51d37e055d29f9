/**
 * `FaireElimination` of `PowerGaussDomain`: one row operation of the
 * elimination modulo MOD. The current row first has its columns k = indcol-1
 * and indpermut exchanged (the column exchange the pivot search made in the
 * pivot row), then, when it reads non-zero at the pivot column, the pivot
 * row scaled by H = (MOD - head) * inverse(pivot) is added to it and the
 * entry at column k is dropped. Column densities follow every entry the
 * operation creates or removes.
 */
module PowerGaussElim {
  import opened Util
  import opened SparseRows
  import opened PowerGaussPivot

  /** The rows the elimination works on: sorted, columns in [lo, n), values reduced and non-zero modulo MOD. */
  predicate ActiveRow(r: Row, lo: nat, MOD: int, n: nat)
  {
    Sorted(r) && ColsGe(r, lo) && ColsBelow(r, n) && ValuesIn(r, 1, MOD)
  }

  /** A row after elimination with its updated column densities. */
  datatype Elim = Elim(row: Row, D: seq<int>)

  /** The first position whose column is at least c (|r| when there is none). */
  function FirstAtLeast(r: Row, c: nat): (i: nat)
    ensures i <= |r|
    ensures forall x :: 0 <= x < i ==> r[x].0 < c
    ensures i < |r| ==> r[i].0 >= c
  {
    if |r| == 0 || r[0].0 >= c then 0 else 1 + FirstAtLeast(r[1..], c)
  }

  // ---------------------------------------------------------------------
  // The elimination coefficient
  // ---------------------------------------------------------------------

  /** `headcoeff = ((MOD - t) * MY_Zpz_inv(v, MOD)) % MOD` for head t and pivot v. */
  function ElimCoefficient(MOD: int, t: int, v: int): (H: int)
    requires MOD > 0 && v > 0
    ensures 0 <= H < MOD
    ensures t == 0 ==> H == 0
    ensures MOD >= 2 && Gcd(v, MOD) == 1 ==> (t + H * v) % MOD == 0
  {
    CoefficientFacts(MOD, t, v, ZpzInv(v, MOD));
    ((MOD - t) * ZpzInv(v, MOD)) % MOD
  }

  lemma CoefficientFacts(MOD: int, t: int, v: int, inv: int)
    requires MOD > 0 && v > 0 && inv == ZpzInv(v, MOD)
    ensures t == 0 ==> ((MOD - t) * inv) % MOD == 0
    ensures MOD >= 2 && Gcd(v, MOD) == 1 ==> (t + (((MOD - t) * inv) % MOD) * v) % MOD == 0
  {
    if t == 0 {
      ModMultiple(inv, MOD);
      assert (MOD - t) * inv == inv * MOD;
    }
    if MOD >= 2 && Gcd(v, MOD) == 1 {
      ZpzInvIsInverse(v, MOD);
      CancelPivot(MOD, t, v, inv);
    }
  }

  /** With inv the inverse of v, adding H*v cancels t modulo MOD. */
  lemma CancelPivot(MOD: int, t: int, v: int, inv: int)
    requires MOD >= 2 && (v * inv) % MOD == 1
    ensures (t + (((MOD - t) * inv) % MOD) * v) % MOD == 0
  {
    var X := (MOD - t) * inv;
    var H := X % MOD;
    ModMul(H, v, MOD);
    ModMul(X, v, MOD);
    ModOfMod(X, MOD);
    assert (H * v) % MOD == (X * v) % MOD;
    assert X * v == (MOD - t) * (v * inv);
    ModMulRight(MOD - t, v * inv, MOD);
    assert (X * v) % MOD == (MOD - t) % MOD;
    ModAdd(t, H * v, MOD);
    ModAdd(t, MOD - t, MOD);
    ModMultiple(1, MOD);
  }

  /** PRIME is a prime number. */
  predicate IsPrime(p: int)
  {
    p >= 2 && forall d :: 1 < d < p ==> p % d != 0
  }

  /** Bezout coefficients read off `MY_Zpz_inv`: a*u + m*k == gcd(a, m). */
  lemma Bezout(a: nat, m: nat) returns (u: int, k: int)
    requires a > 0 && m > 0
    ensures a * u + m * k == Gcd(a, m)
  {
    u := ZpzInv(a, m);
    k := CongruentWitness(a * u, Gcd(a, m), m);
  }

  /** Congruent integers differ by a multiple of the modulus. */
  lemma CongruentWitness(x: int, g: int, m: int) returns (k: int)
    requires m > 0 && x % m == g % m
    ensures x + m * k == g
  {
    DivFacts2(x, m);
    DivFacts2(g, m);
    k := g / m - x / m;
    assert m * k == (g / m) * m - (x / m) * m;
  }

  lemma DivFacts2(x: int, m: int)
    requires m > 0
    ensures x == (x / m) * m + x % m
  {
  }

  /** Integers coprime to a and to b are coprime to a*b. */
  lemma CoprimeMul(v: nat, a: nat, b: nat)
    requires v > 0 && a > 0 && b > 0 && Gcd(v, a) == 1 && Gcd(v, b) == 1
    ensures Gcd(v, a * b) == 1
  {
    var u1, k1 := Bezout(v, a);
    var u2, k2 := Bezout(v, b);
    var x := ProductOfBezout(v, a, b, u1, k1, u2, k2);
    var g := Gcd(v, a * b);
    GcdDivides(v, a * b);
    GcdZero(v, a * b);
    DividesLinear(g, v, a * b, x, k1 * k2);
    DividesLe(g, 1);
  }

  /** Multiplying the two Bezout identities gives one for v and a*b. */
  lemma ProductOfBezout(v: int, a: int, b: int, u1: int, k1: int, u2: int, k2: int) returns (x: int)
    requires v * u1 + a * k1 == 1 && v * u2 + b * k2 == 1
    ensures x * v + (k1 * k2) * (a * b) == 1
  {
    x := u1 * v * u2 + u1 * b * k2 + a * k1 * u2;
    assert (v * u1 + a * k1) * (v * u2 + b * k2) == x * v + (k1 * k2) * (a * b);
  }

  /** A value the prime does not divide is coprime to it. */
  lemma PrimeCoprime(p: int, v: nat)
    requires IsPrime(p) && v > 0 && v % p != 0
    ensures Gcd(v, p) == 1
  {
    GcdDivides(v, p);
    GcdZero(v, p);
    DividesLe(Gcd(v, p), p);
  }

  /** A value the prime does not divide is a unit modulo every power of that prime. */
  lemma {:induction false} UnitOfPrimePower(p: int, e: nat, v: nat)
    requires IsPrime(p) && v > 0 && v % p != 0
    ensures Pow(p, e) > 0 && Gcd(v, Pow(p, e)) == 1
  {
    PowPositive(p, e);
    if e == 0 {
      assert Gcd(v, 1) == Gcd(1, v % 1);
      assert Gcd(1, 0) == 1;
    } else {
      UnitOfPrimePower(p, e - 1, v);
      PrimeCoprime(p, v);
      CoprimeMul(v, p, Pow(p, e - 1));
    }
  }

  /** A pivot found by the search (PRIME does not divide it) is invertible modulo PRIME^e, so its head cancels. */
  lemma PivotIsInvertible(PRIME: int, e: nat, v: int, t: int)
    requires IsPrime(PRIME) && e >= 1 && v > 0 && !MyDivides(PRIME, v)
    ensures Pow(PRIME, e) >= 2
    ensures (v * ZpzInv(v, Pow(PRIME, e))) % Pow(PRIME, e) == 1
    ensures (t + ElimCoefficient(Pow(PRIME, e), t, v) * v) % Pow(PRIME, e) == 0
  {
    UnitOfPrimePower(PRIME, e, v);
    UnitOfPrimePower(PRIME, e - 1, v);
    MulMonotone(PRIME, 1, Pow(PRIME, e - 1));
    ZpzInvIsInverse(v, Pow(PRIME, e));
  }

  // ---------------------------------------------------------------------
  // The merge of the current row with the scaled pivot row
  // ---------------------------------------------------------------------

  /** a + H*b reduced modulo MOD: one entry of the row operation. */
  function AddScaled(MOD: int, a: int, H: int, b: int): int
    requires MOD > 0
  {
    (a + H * b) % MOD
  }

  /** What the merge delivers for rows M (current) and L (pivot) from densities D. */
  ghost predicate Merged(MOD: int, H: int, M: Row, L: Row, D: seq<int>, r: Elim)
    requires MOD > 0
  {
    MergedShape(MOD, M, L, |D|, r.row) && MergedValues(MOD, H, M, L, r.row) && MergedDensity(M, D, r)
  }

  /** The merged row is a sorted row of residues, starting no earlier than both inputs. */
  ghost predicate MergedShape(MOD: int, M: Row, L: Row, n: nat, row: Row)
  {
    && Sorted(row) && ValuesIn(row, 1, MOD) && ColsBelow(row, n)
    && (forall c: nat :: ColsGe(M, c) && ColsGe(L, c) ==> ColsGe(row, c))
  }

  /** The merged row reads M + H*L modulo MOD at every column. */
  ghost predicate MergedValues(MOD: int, H: int, M: Row, L: Row, row: Row)
    requires MOD > 0
  {
    forall j :: Get(row, j) == AddScaled(MOD, Get(M, j), H, Get(L, j))
  }

  /** The densities moved by exactly the columns that appeared in or vanished from M. */
  ghost predicate MergedDensity(M: Row, D: seq<int>, r: Elim)
  {
    && |r.D| == |D|
    && (forall c :: 0 <= c < |D| ==> r.D[c] == D[c] + Ind(Get(r.row, c) != 0) - Ind(Get(M, c) != 0))
  }

  /** The entry (col, v) in front of row when v is non-zero. */
  function Push(col: nat, v: int, row: Row): Row
  {
    if v != 0 then [(col, v)] + row else row
  }

  /**
   * The merge loop of `FaireElimination`: entries of M before the next pivot
   * column are copied; on a shared column the sum M + H*L is kept when
   * non-zero modulo MOD (else its density drops); a pivot column M lacks
   * gets H*L when that is non-zero (and its density grows); the rest of M is
   * copied.
   */
  function {:induction false} Merge(MOD: int, H: int, M: Row, L: Row, D: seq<int>): (r: Elim)
    requires MOD > 0 && Sorted(M) && Sorted(L) && ValuesIn(M, 1, MOD)
    requires ColsBelow(M, |D|) && ColsBelow(L, |D|)
    ensures Merged(MOD, H, M, L, D, r)
    decreases |M| + |L|
  {
    if |L| == 0 then
      MergeDone(MOD, H, M, D);
      Elim(M, D)
    else if |M| > 0 && M[0].0 < L[0].0 then
      SortedTail(M);
      var rest := Merge(MOD, H, M[1..], L, D);
      MergeCopy(MOD, H, M, L, D, rest);
      Elim([M[0]] + rest.row, rest.D)
    else if |M| > 0 && M[0].0 == L[0].0 then
      SortedTail(M);
      SortedTail(L);
      var col := M[0].0;
      var v := (M[0].1 + H * L[0].1) % MOD;
      var D' := if v != 0 then D else D[col := D[col] - 1];
      var rest := Merge(MOD, H, M[1..], L[1..], D');
      MergeMatch(MOD, H, M, L, D, rest);
      Elim(Push(col, v, rest.row), rest.D)
    else
      SortedTail(L);
      var col := L[0].0;
      var t := (H * L[0].1) % MOD;
      var D' := if t != 0 then D[col := D[col] + 1] else D;
      var rest := Merge(MOD, H, M, L[1..], D');
      MergeNew(MOD, H, M, L, D, rest);
      Elim(Push(col, t, rest.row), rest.D)
  }

  lemma MergeDone(MOD: int, H: int, M: Row, D: seq<int>)
    requires MOD > 0 && Sorted(M) && ValuesIn(M, 1, MOD) && ColsBelow(M, |D|)
    ensures Merged(MOD, H, M, [], D, Elim(M, D))
  {
    forall j
      ensures Get(M, j) == AddScaled(MOD, Get(M, j), H, Get([], j))
    {
      GetRange(M, j, 1, MOD);
      assert Get([], j) == 0;
      ModUnique(Get(M, j), MOD, 0, Get(M, j));
    }
  }

  lemma MergeCopy(MOD: int, H: int, M: Row, L: Row, D: seq<int>, rest: Elim)
    requires MOD > 0 && Sorted(M) && Sorted(L) && ValuesIn(M, 1, MOD)
    requires |L| > 0 && |M| > 0 && M[0].0 < L[0].0 && ColsBelow(M, |D|)
    requires Merged(MOD, H, M[1..], L, D, rest)
    ensures Merged(MOD, H, M, L, D, Elim([M[0]] + rest.row, rest.D))
  {
    var e := M[0];
    var row := [e] + rest.row;
    SortedTail(M);
    assert ColsGe(L, e.0 + 1);
    assert ColsGe(rest.row, e.0 + 1);
    SortedCons(e, rest.row);
    assert row[1..] == rest.row;
    GetBelow(rest.row, e.0, e.0 + 1);
    GetBelow(M[1..], e.0, e.0 + 1);
    forall j
      ensures Get(row, j) == AddScaled(MOD, Get(M, j), H, Get(L, j))
      ensures Get(row, j) == if j == e.0 then e.1 else Get(rest.row, j)
    {
      CopyGetAt(MOD, H, M, L, rest.row, j);
    }
    forall c: nat | ColsGe(M, c) && ColsGe(L, c)
      ensures ColsGe(row, c)
    {
      assert ColsGe(M[1..], c);
    }
  }

  lemma CopyGetAt(MOD: int, H: int, M: Row, L: Row, rest: Row, j: nat)
    requires MOD > 0 && Sorted(L) && ValuesIn(M, 1, MOD)
    requires |L| > 0 && |M| > 0 && M[0].0 < L[0].0
    requires Get(rest, j) == AddScaled(MOD, Get(M[1..], j), H, Get(L, j))
    ensures Get([M[0]] + rest, j) == AddScaled(MOD, Get(M, j), H, Get(L, j))
    ensures Get([M[0]] + rest, j) == if j == M[0].0 then M[0].1 else Get(rest, j)
  {
    var e := M[0];
    GetCons(e, rest, j);
    assert Get(M, j) == if j == e.0 then e.1 else Get(M[1..], j);
    if j == e.0 {
      GetBelow(L, e.0, L[0].0);
      ModUnique(e.1, MOD, 0, e.1);
    }
  }

  lemma MergeMatch(MOD: int, H: int, M: Row, L: Row, D: seq<int>, rest: Elim)
    requires MOD > 0 && Sorted(M) && Sorted(L) && ValuesIn(M, 1, MOD)
    requires |L| > 0 && |M| > 0 && M[0].0 == L[0].0 && M[0].0 < |D|
    requires var v := (M[0].1 + H * L[0].1) % MOD;
      Merged(MOD, H, M[1..], L[1..], if v != 0 then D else D[M[0].0 := D[M[0].0] - 1], rest)
    ensures Merged(MOD, H, M, L, D, Elim(Push(M[0].0, (M[0].1 + H * L[0].1) % MOD, rest.row), rest.D))
  {
    var col := M[0].0;
    var v := (M[0].1 + H * L[0].1) % MOD;
    SortedTail(M);
    SortedTail(L);
    assert ColsGe(rest.row, col + 1);
    PushFacts(MOD, col, v, rest.row, |D|);
    MatchValues(MOD, H, M, L, rest.row, v);
    GetBelow(M[1..], col, col + 1);
    GetBelow(rest.row, col, col + 1);
    MatchDensity(M, D, if v != 0 then D else D[col := D[col] - 1], rest, v);
    assert ColsGe(Push(col, v, rest.row), col);
  }

  lemma MatchValues(MOD: int, H: int, M: Row, L: Row, rest: Row, v: int)
    requires MOD > 0 && |L| > 0 && |M| > 0 && M[0].0 == L[0].0 && v == (M[0].1 + H * L[0].1) % MOD
    requires MergedValues(MOD, H, M[1..], L[1..], rest)
    requires Get(Push(M[0].0, v, rest), M[0].0) == v
    requires forall j :: j != M[0].0 ==> Get(Push(M[0].0, v, rest), j) == Get(rest, j)
    ensures MergedValues(MOD, H, M, L, Push(M[0].0, v, rest))
  {
    forall j
      ensures Get(Push(M[0].0, v, rest), j) == AddScaled(MOD, Get(M, j), H, Get(L, j))
    {
      if j != M[0].0 {
        assert Get(M, j) == Get(M[1..], j) && Get(L, j) == Get(L[1..], j);
      }
    }
  }

  lemma MatchDensity(M: Row, D: seq<int>, D1: seq<int>, rest: Elim, v: int)
    requires |M| > 0 && M[0].0 < |D| && M[0].1 != 0 && Get(M[1..], M[0].0) == 0 && Get(rest.row, M[0].0) == 0
    requires D1 == if v != 0 then D else D[M[0].0 := D[M[0].0] - 1]
    requires MergedDensity(M[1..], D1, rest)
    requires Get(Push(M[0].0, v, rest.row), M[0].0) == v
    requires forall j :: j != M[0].0 ==> Get(Push(M[0].0, v, rest.row), j) == Get(rest.row, j)
    ensures MergedDensity(M, D, Elim(Push(M[0].0, v, rest.row), rest.D))
  {
    var r := Elim(Push(M[0].0, v, rest.row), rest.D);
    forall c | 0 <= c < |D|
      ensures r.D[c] == D[c] + Ind(Get(r.row, c) != 0) - Ind(Get(M, c) != 0)
    {
      assert rest.D[c] == D1[c] + Ind(Get(rest.row, c) != 0) - Ind(Get(M[1..], c) != 0);
      assert Get(M, c) == if c == M[0].0 then M[0].1 else Get(M[1..], c);
    }
  }

  lemma MergeNew(MOD: int, H: int, M: Row, L: Row, D: seq<int>, rest: Elim)
    requires MOD > 0 && Sorted(M) && Sorted(L) && ValuesIn(M, 1, MOD)
    requires |L| > 0 && (|M| == 0 || L[0].0 < M[0].0) && L[0].0 < |D|
    requires var t := (H * L[0].1) % MOD;
      Merged(MOD, H, M, L[1..], if t != 0 then D[L[0].0 := D[L[0].0] + 1] else D, rest)
    ensures Merged(MOD, H, M, L, D, Elim(Push(L[0].0, (H * L[0].1) % MOD, rest.row), rest.D))
  {
    var col := L[0].0;
    var t := (H * L[0].1) % MOD;
    SortedTail(L);
    assert ColsGe(M, col + 1);
    assert ColsGe(rest.row, col + 1);
    GetBelow(M, col, col + 1);
    GetBelow(rest.row, col, col + 1);
    PushFacts(MOD, col, t, rest.row, |D|);
    NewValues(MOD, H, M, L, rest.row, t);
    NewDensity(M, D, if t != 0 then D[col := D[col] + 1] else D, rest, col, t);
    assert ColsGe(Push(col, t, rest.row), col);
  }

  lemma NewValues(MOD: int, H: int, M: Row, L: Row, rest: Row, t: int)
    requires MOD > 0 && |L| > 0 && t == (H * L[0].1) % MOD && Get(M, L[0].0) == 0
    requires MergedValues(MOD, H, M, L[1..], rest)
    requires Get(Push(L[0].0, t, rest), L[0].0) == t
    requires forall j :: j != L[0].0 ==> Get(Push(L[0].0, t, rest), j) == Get(rest, j)
    ensures MergedValues(MOD, H, M, L, Push(L[0].0, t, rest))
  {
    forall j
      ensures Get(Push(L[0].0, t, rest), j) == AddScaled(MOD, Get(M, j), H, Get(L, j))
    {
      if j != L[0].0 {
        assert Get(L, j) == Get(L[1..], j);
      }
    }
  }

  lemma NewDensity(M: Row, D: seq<int>, D1: seq<int>, rest: Elim, col: nat, t: int)
    requires col < |D| && Get(M, col) == 0 && Get(rest.row, col) == 0
    requires D1 == if t != 0 then D[col := D[col] + 1] else D
    requires MergedDensity(M, D1, rest)
    requires Get(Push(col, t, rest.row), col) == t
    requires forall j :: j != col ==> Get(Push(col, t, rest.row), j) == Get(rest.row, j)
    ensures MergedDensity(M, D, Elim(Push(col, t, rest.row), rest.D))
  {
  }

  /** Prepending a non-zero residue at a column below the rest: shape kept, one column changed. */
  lemma PushFacts(MOD: int, col: nat, v: int, row: Row, n: nat)
    requires MOD > 0 && 0 <= v < MOD && col < n
    requires Sorted(row) && ColsGe(row, col + 1) && ValuesIn(row, 1, MOD) && ColsBelow(row, n)
    ensures Sorted(Push(col, v, row)) && ValuesIn(Push(col, v, row), 1, MOD)
    ensures ColsBelow(Push(col, v, row), n) && ColsGe(Push(col, v, row), col)
    ensures Get(Push(col, v, row), col) == v
    ensures forall j :: j != col ==> Get(Push(col, v, row), j) == Get(row, j)
  {
    GetBelow(row, col, col + 1);
    if v != 0 {
      SortedCons((col, v), row);
      forall j
        ensures Get([(col, v)] + row, j) == if j == col then v else Get(row, j)
      {
        GetCons((col, v), row, j);
      }
    }
  }

  // ---------------------------------------------------------------------
  // FaireElimination
  // ---------------------------------------------------------------------

  /** What `FaireElimination` may assume: the current row T and the pivot row P, whose head sits at column k. */
  predicate ElimInputs(MOD: int, T: Row, P: Row, k: nat, ip: nat, D: seq<int>)
  {
    && MOD > 0 && k <= ip < |D|
    && ActiveRow(T, k, MOD, |D|)
    && ActiveRow(P, k, MOD, |D|) && |P| > 0 && P[0].0 == k
  }

  /**
   * The row after elimination: columns k and ip exchanged, the pivot row
   * scaled by the elimination coefficient added, column k dropped, and the
   * densities moved by exactly the entries that appeared and disappeared.
   */
  ghost predicate Eliminated(MOD: int, T: Row, P: Row, k: nat, ip: nat, D: seq<int>, r: Elim)
    requires ElimInputs(MOD, T, P, k, ip, D)
  {
    && ActiveRow(r.row, k + 1, MOD, |D|)
    && (forall j :: Get(r.row, j) == if j == k then 0
          else AddScaled(MOD, Get(T, Swap(k, ip, j)), ElimCoefficient(MOD, Get(T, ip), P[0].1), Get(P, j)))
    && |r.D| == |D|
    && (forall c :: 0 <= c < |D| ==> r.D[c] == D[c] + Ind(Get(r.row, c) != 0) - Ind(Get(T, c) != 0))
  }

  /**
   * `FaireElimination(MOD, row, pivot, indcol, indpermut, columns)`, with the
   * pivot at column indcol - 1: when the row stores column indpermut, the
   * two columns are exchanged and the scaled pivot row is added; otherwise
   * only the exchange is made (the entry at indcol - 1, if any, moves to
   * indpermut).
   */
  function FaireElimination(MOD: int, T: Row, P: Row, indcol: nat, ip: nat, D: seq<int>): (r: Elim)
    requires indcol >= 1 && ElimInputs(MOD, T, P, indcol - 1, ip, D)
    ensures Eliminated(MOD, T, P, indcol - 1, ip, D, r)
  {
    var k := indcol - 1;
    if |T| == 0 then
      KeepRow(MOD, T, P, k, ip, D);
      Elim(T, D)
    else
      var jh := FirstAtLeast(T, ip);
      if jh < |T| && T[jh].0 == ip then
        EliminateWith(MOD, T, P, k, ip, jh, D)
      else if ip != k then
        ExchangeAbsent(MOD, T, P, k, ip, jh, D)
      else
        AbsentColumn(T, ip, jh);
        KeepRow(MOD, T, P, k, ip, D);
        Elim(T, D)
  }

  /**
   * With a pivot invertible modulo MOD, the result is exactly the row
   * operation T' + H * P on every column, the dropped column k included:
   * the coefficient cancels the head, so nothing is lost by dropping it.
   */
  lemma FaireEliminationIsRowOperation(MOD: int, T: Row, P: Row, indcol: nat, ip: nat, D: seq<int>)
    requires indcol >= 1 && ElimInputs(MOD, T, P, indcol - 1, ip, D)
    requires MOD >= 2 && Gcd(P[0].1, MOD) == 1
    ensures var r := FaireElimination(MOD, T, P, indcol, ip, D);
      var H := ElimCoefficient(MOD, Get(T, ip), P[0].1);
      forall j :: Get(r.row, j) == AddScaled(MOD, Get(T, Swap(indcol - 1, ip, j)), H, Get(P, j))
  {
    var k := indcol - 1;
    var r := FaireElimination(MOD, T, P, indcol, ip, D);
    var H := ElimCoefficient(MOD, Get(T, ip), P[0].1);
    GetAt(P, 0);
    assert Swap(k, ip, k) == ip;
    assert AddScaled(MOD, Get(T, ip), H, P[0].1) == 0;
  }

  /** A row that does not store the pivot's column only has columns indcol-1 and indpermut exchanged. */
  lemma FaireEliminationExchangeOnly(MOD: int, T: Row, P: Row, indcol: nat, ip: nat, D: seq<int>)
    requires indcol >= 1 && ElimInputs(MOD, T, P, indcol - 1, ip, D)
    requires Get(T, ip) == 0
    ensures var r := FaireElimination(MOD, T, P, indcol, ip, D);
      forall j :: Get(r.row, j) == Get(T, Swap(indcol - 1, ip, j))
  {
    var k := indcol - 1;
    var r := FaireElimination(MOD, T, P, indcol, ip, D);
    var H := ElimCoefficient(MOD, Get(T, ip), P[0].1);
    assert H == 0;
    forall j
      ensures Get(r.row, j) == Get(T, Swap(k, ip, j))
    {
      if j == k {
        assert Swap(k, ip, k) == ip;
      } else {
        AddNothing(MOD, T, Swap(k, ip, j), Get(P, j));
      }
    }
  }

  /** Adding zero times anything leaves a normalised value unchanged. */
  lemma AddNothing(MOD: int, T: Row, c: nat, b: int)
    requires MOD > 0 && ValuesIn(T, 1, MOD)
    ensures AddScaled(MOD, Get(T, c), 0, b) == Get(T, c)
  {
    GetRange(T, c, 1, MOD);
    ModUnique(Get(T, c), MOD, 0, Get(T, c));
  }

  /** Neither column k nor column ip stored: the row and densities are kept. */
  lemma KeepRow(MOD: int, T: Row, P: Row, k: nat, ip: nat, D: seq<int>)
    requires ElimInputs(MOD, T, P, k, ip, D)
    requires Get(T, ip) == 0 && Get(T, k) == 0
    ensures Eliminated(MOD, T, P, k, ip, D, Elim(T, D))
  {
    var H := ElimCoefficient(MOD, Get(T, ip), P[0].1);
    assert H == 0;
    if |T| > 0 {
      GetAt(T, 0);
      assert ColsGe(T, k + 1);
    }
    forall j
      ensures Get(T, j) == if j == k then 0 else AddScaled(MOD, Get(T, Swap(k, ip, j)), H, Get(P, j))
    {
      TransposedAt(MOD, T, T, k, ip, j, Get(P, j));
    }
  }

  /**
   * A row reading as the transposition of T, whose columns start above k,
   * reads at j what a zero elimination coefficient gives.
   */
  lemma TransposedAt(MOD: int, T: Row, moved: Row, k: nat, ip: nat, j: nat, b: int)
    requires MOD > 0 && ValuesIn(T, 1, MOD) && ColsGe(moved, k + 1)
    requires Get(moved, j) == Get(T, Swap(k, ip, j))
    ensures Get(moved, j) == if j == k then 0 else AddScaled(MOD, Get(T, Swap(k, ip, j)), 0, b)
  {
    if j == k {
      GetBelow(moved, k, k + 1);
    } else {
      GetRange(T, Swap(k, ip, j), 1, MOD);
      ModUnique(Get(T, Swap(k, ip, j)), MOD, 0, Get(T, Swap(k, ip, j)));
    }
  }

  // ----- Case A: the row stores column ip ------------------------------

  /** Exchange columns k and ip (as `CherchePivot` did in the pivot row), then merge with the scaled pivot row. */
  function EliminateWith(MOD: int, T: Row, P: Row, k: nat, ip: nat, jh: nat, D: seq<int>): (r: Elim)
    requires ElimInputs(MOD, T, P, k, ip, D) && jh < |T| && T[jh].0 == ip
    ensures Eliminated(MOD, T, P, k, ip, D, r)
  {
    var T1 := MovePivot(T, k, jh);
    var D1 := ExchangeDensities(T, k, ip, D);
    var H := ElimCoefficient(MOD, T1[0].1, P[0].1);
    var D2 := D1[k := D1[k] - 1];
    var l := FirstAtLeast(P, k + 1);
    ExchangeFacts(MOD, T, k, ip, jh, D);
    GetAt(T, jh);
    var r := Merge(MOD, H, T1[1..], P[l..], D2);
    MergeReadback(MOD, T, P, T1, k, ip, D, D1, l, H, r);
    r
  }

  /**
   * The density update of the exchange: nothing moves when the row also
   * stores column k (values are swapped) or when ip == k; otherwise the
   * entry leaves column ip for column k.
   */
  function ExchangeDensities(T: Row, k: nat, ip: nat, D: seq<int>): (D1: seq<int>)
    requires |T| > 0 && k < |D| && ip < |D|
    ensures |D1| == |D|
  {
    if ip != k && T[0].0 != k then
      var Dm := D[ip := D[ip] - 1];
      Dm[k := Dm[k] + 1]
    else D
  }

  /** The exchanged row is the column transposition of T and its densities follow it. */
  lemma ExchangeFacts(MOD: int, T: Row, k: nat, ip: nat, jh: nat, D: seq<int>)
    requires ElimInputs(MOD, T, [(k, 1)], k, ip, D) && jh < |T| && T[jh].0 == ip
    ensures var T1 := MovePivot(T, k, jh);
      && ActiveRow(T1, k, MOD, |D|) && ColsGe(T1[1..], k + 1)
      && T1[0] == (k, Get(T, ip))
      && (forall j :: Get(T1, j) == Get(T, Swap(k, ip, j)))
      && (forall c :: 0 <= c < |D| ==> ExchangeDensities(T, k, ip, D)[c] == D[c] + Ind(Get(T1, c) != 0) - Ind(Get(T, c) != 0))
  {
    var T1 := MovePivot(T, k, jh);
    MovePivotTransposes(T, k, jh);
    GetAt(T, jh);
    assert Get(T1, ip) == Get(T, k) && Get(T1, k) == Get(T, ip);
    if T[0].0 == k {
      GetAt(T, 0);
    } else {
      GetBelow(T, k, T[0].0);
    }
  }

  /** The merge of the exchanged row T1 with the pivot row, read column by column. */
  lemma MergeReadback(MOD: int, T: Row, P: Row, T1: Row, k: nat, ip: nat, D: seq<int>, D1: seq<int>, l: nat, H: int, r: Elim)
    requires ElimInputs(MOD, T, P, k, ip, D)
    requires l == FirstAtLeast(P, k + 1) && H == ElimCoefficient(MOD, Get(T, ip), P[0].1)
    requires |T1| > 0 && T1[0].0 == k && Get(T, ip) != 0 && ColsGe(T1[1..], k + 1)
    requires forall j :: Get(T1, j) == Get(T, Swap(k, ip, j))
    requires |D1| == |D| && forall c :: 0 <= c < |D| ==> D1[c] == D[c] + Ind(Get(T1, c) != 0) - Ind(Get(T, c) != 0)
    requires MOD > 0 && ColsGe(P[l..], k + 1)
    requires Merged(MOD, H, T1[1..], P[l..], D1[k := D1[k] - 1], r)
    ensures Eliminated(MOD, T, P, k, ip, D, r)
  {
    assert ColsGe(r.row, k + 1);
    forall j
      ensures Get(r.row, j) == if j == k then 0 else AddScaled(MOD, Get(T, Swap(k, ip, j)), H, Get(P, j))
      ensures Get(T1[1..], j) == if j == k then 0 else Get(T1, j)
    {
      ReadbackAt(MOD, T, P, T1, k, ip, l, r.row, H, j);
    }
    assert Get(T1, k) == Get(T, ip);
    ReadbackDensity(T, T1, k, D1, r.row, r.D, D);
  }

  lemma ReadbackAt(MOD: int, T: Row, P: Row, T1: Row, k: nat, ip: nat, l: nat, row: Row, H: int, j: nat)
    requires MOD > 0 && k <= ip && ColsGe(T, k) && Sorted(P) && ColsGe(P, k)
    requires l == FirstAtLeast(P, k + 1)
    requires |T1| > 0 && T1[0].0 == k && ColsGe(T1[1..], k + 1) && ColsGe(row, k + 1)
    requires Get(T1, j) == Get(T, Swap(k, ip, j))
    requires Get(row, j) == AddScaled(MOD, Get(T1[1..], j), H, Get(P[l..], j))
    ensures Get(row, j) == if j == k then 0 else AddScaled(MOD, Get(T, Swap(k, ip, j)), H, Get(P, j))
    ensures Get(T1[1..], j) == if j == k then 0 else Get(T1, j)
  {
    assert Get(T1, j) == if j == T1[0].0 then T1[0].1 else Get(T1[1..], j);
    if j <= k {
      GetBelow(row, j, k + 1);
      GetBelow(T1[1..], j, k + 1);
      if j < k {
        GetBelow(T, j, k);
        GetBelow(P, j, k);
        assert Swap(k, ip, j) == j;
      }
    } else {
      GetDrop(P, l, j);
    }
  }

  /** Exchange, dropped head and merge: the density changes add up to the net change of the row. */
  lemma ReadbackDensity(T: Row, T1: Row, k: nat, D1: seq<int>, row: Row, RD: seq<int>, D: seq<int>)
    requires k < |D| && |D1| == |D| && |RD| == |D| && |T1| > 0
    requires forall c :: 0 <= c < |D| ==> D1[c] == D[c] + Ind(Get(T1, c) != 0) - Ind(Get(T, c) != 0)
    requires forall c :: 0 <= c < |D| ==> RD[c] == D1[k := D1[k] - 1][c] + Ind(Get(row, c) != 0) - Ind(Get(T1[1..], c) != 0)
    requires forall j :: Get(T1[1..], j) == if j == k then 0 else Get(T1, j)
    requires Get(T1, k) != 0 && Get(row, k) == 0
    ensures forall c :: 0 <= c < |D| ==> RD[c] == D[c] + Ind(Get(row, c) != 0) - Ind(Get(T, c) != 0)
  {
  }

  // ----- Case B: the row does not store column ip -----------------------

  /**
   * Exchange of columns k and ip in a row that lacks ip: the entry at
   * column k (when there is one) is relabelled ip and moved to position
   * jh - 1, the last position before the columns above ip.
   */
  function ExchangeAbsent(MOD: int, T: Row, P: Row, k: nat, ip: nat, jh: nat, D: seq<int>): (r: Elim)
    requires ElimInputs(MOD, T, P, k, ip, D) && ip != k && |T| > 0
    requires jh == FirstAtLeast(T, ip) && !(jh < |T| && T[jh].0 == ip)
    ensures Eliminated(MOD, T, P, k, ip, D, r)
  {
    var l := FirstAtLeast(T, k);
    if l < |T| && T[l].0 == k then
      AbsentPositions(T, k, ip, jh, l);
      var Dm := D[k := D[k] - 1];
      var D' := Dm[ip := Dm[ip] + 1];
      MoveBackFacts(MOD, T, P, k, ip, jh, D);
      Elim(MoveBack(T, ip, jh), D')
    else
      AbsentNeither(MOD, T, P, k, ip, jh, l, D);
      KeepRow(MOD, T, P, k, ip, D);
      Elim(T, D)
  }

  /** The head entry (at column k) relabelled ip and moved to position jh - 1. */
  function MoveBack(T: Row, ip: nat, jh: nat): Row
    requires 0 < jh <= |T|
  {
    T[1..jh] + [(ip, T[0].1)] + T[jh..]
  }

  /** The entry at column k is the head, and the row's columns below ip end at jh. */
  lemma AbsentPositions(T: Row, k: nat, ip: nat, jh: nat, l: nat)
    requires Sorted(T) && ColsGe(T, k) && k < ip
    requires jh == FirstAtLeast(T, ip) && l == FirstAtLeast(T, k) && l < |T| && T[l].0 == k
    ensures l == 0 && 0 < jh
  {
  }

  /** Without an entry at k or ip, both columns read zero. */
  lemma AbsentNeither(MOD: int, T: Row, P: Row, k: nat, ip: nat, jh: nat, l: nat, D: seq<int>)
    requires ElimInputs(MOD, T, P, k, ip, D) && |T| > 0
    requires jh == FirstAtLeast(T, ip) && !(jh < |T| && T[jh].0 == ip)
    requires l == FirstAtLeast(T, k) && !(l < |T| && T[l].0 == k)
    ensures Get(T, ip) == 0 && Get(T, k) == 0
  {
    AbsentColumn(T, ip, jh);
    AbsentColumn(T, k, l);
  }

  /** The search for the first column at least c tells whether c is stored. */
  lemma AbsentColumn(T: Row, c: nat, i: nat)
    requires Sorted(T) && i == FirstAtLeast(T, c) && !(i < |T| && T[i].0 == c)
    ensures Get(T, c) == 0
  {
    forall x | 0 <= x < |T|
      ensures T[x].0 != c
    {
      if x > i {
        assert T[i].0 < T[x].0;
      }
    }
    GetAbsent(T, c);
  }

  /** Moving the head entry to column ip behind the columns below ip is the transposition (k, ip). */
  lemma MoveBackFacts(MOD: int, T: Row, P: Row, k: nat, ip: nat, jh: nat, D: seq<int>)
    requires ElimInputs(MOD, T, P, k, ip, D) && ip != k && |T| > 0 && T[0].0 == k
    requires jh == FirstAtLeast(T, ip) && !(jh < |T| && T[jh].0 == ip) && 0 < jh
    ensures var moved := MoveBack(T, ip, jh);
      var Dm := D[k := D[k] - 1];
      Eliminated(MOD, T, P, k, ip, D, Elim(moved, Dm[ip := Dm[ip] + 1]))
  {
    var moved := MoveBack(T, ip, jh);
    AbsentColumn(T, ip, jh);
    GetAt(T, 0);
    MoveBackShape(MOD, T, k, ip, jh, |D|);
    forall j
      ensures Get(moved, j) == Get(T, Swap(k, ip, j))
    {
      MoveBackGet(T, k, ip, jh, j);
    }
    KeepShape(MOD, T, P, k, ip, D, moved);
  }

  lemma MoveBackShape(MOD: int, T: Row, k: nat, ip: nat, jh: nat, n: nat)
    requires ActiveRow(T, k, MOD, n) && k < ip < n && |T| > 0 && T[0].0 == k
    requires jh == FirstAtLeast(T, ip) && !(jh < |T| && T[jh].0 == ip) && 0 < jh
    ensures var moved := MoveBack(T, ip, jh);
      Sorted(moved) && ColsGe(moved, k + 1) && ColsBelow(moved, n) && ValuesIn(moved, 1, MOD)
  {
    var moved := MoveBack(T, ip, jh);
    MoveBackIndex(T, ip, jh);
    forall x | jh <= x < |T|
      ensures T[x].0 > ip
    {
      assert T[x].0 >= T[jh].0;
    }
    MoveBackSorted(T, moved, k, ip, jh);
    MoveBackBounds(T, moved, ip, jh, MOD, n);
  }

  lemma MoveBackBounds(T: Row, moved: Row, ip: nat, jh: nat, MOD: int, n: nat)
    requires ColsBelow(T, n) && ValuesIn(T, 1, MOD) && |T| > 0 && ip < n && 0 < jh <= |T| && |moved| == |T|
    requires forall x {:trigger moved[x]} :: 0 <= x < |moved| ==> moved[x] == if x < jh - 1 then T[x + 1] else if x == jh - 1 then (ip, T[0].1) else T[x]
    ensures ColsBelow(moved, n) && ValuesIn(moved, 1, MOD)
  {
    forall a | 0 <= a < |moved|
      ensures moved[a].0 < n && 1 <= moved[a].1 < MOD
    {
      if a < jh - 1 {
        assert moved[a] == T[a + 1];
      } else if a == jh - 1 {
        assert moved[a] == (ip, T[0].1);
      } else {
        assert moved[a] == T[a];
      }
    }
  }

  lemma MoveBackIndex(T: Row, ip: nat, jh: nat)
    requires 0 < jh <= |T|
    ensures var moved := MoveBack(T, ip, jh);
      |moved| == |T|
      && forall x {:trigger moved[x]} :: 0 <= x < |moved| ==> moved[x] == if x < jh - 1 then T[x + 1] else if x == jh - 1 then (ip, T[0].1) else T[x]
  {
  }

  lemma MoveBackSorted(T: Row, moved: Row, k: nat, ip: nat, jh: nat)
    requires Sorted(T) && |T| > 0 && T[0].0 == k && k < ip && 0 < jh <= |T| && |moved| == |T|
    requires forall x :: 0 <= x < jh ==> T[x].0 < ip
    requires forall x :: jh <= x < |T| ==> T[x].0 > ip
    requires forall x {:trigger moved[x]} :: 0 <= x < |moved| ==> moved[x] == if x < jh - 1 then T[x + 1] else if x == jh - 1 then (ip, T[0].1) else T[x]
    ensures Sorted(moved) && ColsGe(moved, k + 1)
  {
    forall a, b | 0 <= a < b < |moved|
      ensures moved[a].0 < moved[b].0
    {
      var ma, mb := moved[a], moved[b];
      if b < jh - 1 {
        assert T[a + 1].0 < T[b + 1].0;
      } else if b == jh - 1 {
        assert ma == T[a + 1] && a + 1 < jh;
      } else if a < jh - 1 {
        assert ma == T[a + 1] && a + 1 < jh && mb == T[b];
      } else if a == jh - 1 {
        assert mb == T[b];
      } else {
        assert T[a].0 < T[b].0;
      }
    }
    MoveBackAbove(T, moved, k, ip, jh);
  }

  lemma MoveBackAbove(T: Row, moved: Row, k: nat, ip: nat, jh: nat)
    requires Sorted(T) && |T| > 0 && T[0].0 == k && k < ip && 0 < jh <= |T| && |moved| == |T|
    requires forall x :: jh <= x < |T| ==> T[x].0 > ip
    requires forall x {:trigger moved[x]} :: 0 <= x < |moved| ==> moved[x] == if x < jh - 1 then T[x + 1] else if x == jh - 1 then (ip, T[0].1) else T[x]
    ensures ColsGe(moved, k + 1)
  {
    forall a | 0 <= a < |moved|
      ensures moved[a].0 >= k + 1
    {
      if a < jh - 1 {
        assert moved[a] == T[a + 1] && T[0].0 < T[a + 1].0;
      } else if a == jh - 1 {
        assert moved[a].0 == ip;
      } else {
        assert moved[a] == T[a] && T[a].0 > ip;
      }
    }
  }

  lemma MoveBackGet(T: Row, k: nat, ip: nat, jh: nat, j: nat)
    requires Sorted(T) && k < ip && |T| > 0 && T[0].0 == k && 0 < jh <= |T|
    requires forall x :: 0 <= x < jh ==> T[x].0 < ip
    requires ColsGe(MoveBack(T, ip, jh), k + 1)
    requires Get(T, ip) == 0
    ensures Get(MoveBack(T, ip, jh), j) == Get(T, Swap(k, ip, j))
  {
    var a := T[1..jh];
    var b := T[jh..];
    var e := (ip, T[0].1);
    var moved := MoveBack(T, ip, jh);
    assert moved == a + [e] + b;
    if j == ip {
      GetSkip(a, [e] + b, j);
      GetCons(e, b, j);
      assert a + ([e] + b) == moved;
    } else if j == k {
      GetBelow(moved, k, k + 1);
    } else {
      GetInsertOther(a, e, b, j);
      assert a + b == T[1..];
    }
  }

  /** A transposed copy of T (which stores k but not ip) meets the contract with coefficient zero. */
  lemma KeepShape(MOD: int, T: Row, P: Row, k: nat, ip: nat, D: seq<int>, moved: Row)
    requires ElimInputs(MOD, T, P, k, ip, D) && ip != k && Get(T, ip) == 0 && Get(T, k) != 0
    requires ActiveRow(moved, k + 1, MOD, |D|)
    requires forall j :: Get(moved, j) == Get(T, Swap(k, ip, j))
    ensures var Dm := D[k := D[k] - 1];
      Eliminated(MOD, T, P, k, ip, D, Elim(moved, Dm[ip := Dm[ip] + 1]))
  {
    var H := ElimCoefficient(MOD, Get(T, ip), P[0].1);
    assert H == 0;
    forall j
      ensures Get(moved, j) == if j == k then 0 else AddScaled(MOD, Get(T, Swap(k, ip, j)), H, Get(P, j))
    {
      TransposedAt(MOD, T, moved, k, ip, j, Get(P, j));
    }
    assert Get(moved, ip) == Get(T, k) && Get(moved, k) == Get(T, ip);
  }
}
