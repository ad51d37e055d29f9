/**
 * Pivot search of `PowerGaussDomain`: the modular inverse used for the
 * elimination coefficient, the divisibility test, the density-guided
 * `CherchePivot` and the optional "same column first" heuristic.
 *
 * Densities are `int`: the source keeps them in `size_t` and reads them
 * through a cast to `long`, so a count decremented below zero compares as
 * a negative number, which is what unbounded integers give.
 */
module PowerGaussPivot {
  import opened Util
  import opened SparseRows

  // ---------------------------------------------------------------------
  // MY_Zpz_inv
  // ---------------------------------------------------------------------

  /**
   * The state of the inverse loop at its head: remainders r0, r1 of the
   * Euclidean sequence on (m, a), with r0 = -u0*a and r1 = w*a (mod m), where
   * w is u1 after its update `u1 += q*u0`. The cofactor magnitudes are tied
   * to the remainders through m, which bounds them by m.
   */
  ghost predicate InvLoopState(a: nat, m: nat, r0: nat, r1: nat, u0: nat, w: nat)
  {
    && m > 0 && r0 > 0
    && Gcd(r0, r1) == Gcd(a, m)
    && Divides(m, r0 + u0 * a)
    && Divides(m, r1 - w * a)
    && u0 * r1 + w * r0 == m
    && u0 <= w
  }

  /** `MY_Zpz_inv(a, m)`: a cofactor u with a*u = gcd(a, m) modulo m; the inverse of a when gcd(a, m) == 1. */
  function ZpzInv(a: nat, m: nat): (u: nat)
    requires a > 0
    ensures m > 0 ==> (a * u) % m == Gcd(a, m) % m
    ensures u <= Max(m, 1)
  {
    if m % a == 0 then
      InvExact(a, m);
      1
    else
      ZpzInvFirst(a, m)
  }

  /** The two statements before the loop: q = m/a, r0 = m - q*a, q2 = a/r0, r1 = a - q2*r0, u0 = q, u1 = 1. */
  function ZpzInvFirst(a: nat, m: nat): (u: nat)
    requires a > 0 && m % a != 0
    ensures m > 0 && (a * u) % m == Gcd(a, m) % m
    ensures u <= m
  {
    var q := m / a;
    var r0 := m % a;
    var q2 := a / r0;
    var r1 := a % r0;
    InvStart(a, m, q, r0, q2, r1);
    ZpzInvLoop(a, m, r0, r1, q, 1 + q2 * q)
  }

  /** When a divides m, the first step already finds gcd(a, m) = a. */
  lemma InvExact(a: nat, m: nat)
    requires a > 0 && m % a == 0
    ensures m > 0 ==> (a * 1) % m == Gcd(a, m) % m
  {
    if m > 0 {
      GcdStep(m, a);
      assert Gcd(a, 0) == a;
      GcdSym(a, m);
    }
  }

  /** The state after the first two Euclid steps on (m, a). */
  lemma InvStart(a: nat, m: nat, q: nat, r0: nat, q2: nat, r1: nat)
    requires a > 0 && q == m / a && r0 == m % a && r0 != 0 && q2 == a / r0 && r1 == a % r0
    ensures InvLoopState(a, m, r0, r1, q, 1 + q2 * q)
  {
    DivFacts(m, a);
    DivFacts(a, r0);
    assert q2 >= 1;
    GcdStep(m, a);
    GcdStep(a, r0);
    GcdSym(a, m);
    StartIdentities(a, m, q, r0, q2, r1);
    DividesSelf(m);
    var k := -(q2 as int);
    ModMultiple(k, m);
    MulMonotone(q, 1, q2);
  }

  lemma StartIdentities(a: int, m: int, q: int, r0: int, q2: int, r1: int)
    requires m == q * a + r0 && a == q2 * r0 + r1
    ensures r0 + q * a == m
    ensures r1 - (1 + q2 * q) * a == (-q2) * m
    ensures q * r1 + (1 + q2 * q) * r0 == m
  {
    assert r1 - (1 + q2 * q) * a == r1 - a - q2 * (q * a);
    assert q * r1 + (1 + q2 * q) * r0 == q * (r1 + q2 * r0) + r0;
  }

  lemma DivFacts(u: nat, v: nat)
    requires v > 0
    ensures u == (u / v) * v + u % v && 0 <= u % v < v
    ensures v <= u ==> u / v >= 1
    ensures u < v ==> u / v == 0
  {
    if u < v {
      ModUnique(u, v, 0, u);
    }
  }

  lemma DividesSelf(m: int)
    requires m != 0
    ensures Divides(m, m)
  {
    ModMultiple(1, m);
  }

  /**
   * The loop of `MY_Zpz_inv`: q = r0/r1; r0 -= q*r1 (leaving r0 mod r1);
   * return u1 if r0 is zero; u0 += q*u1; q = r1/r0; r1 -= q*r0; u1 += q*u0
   * (the first statement of the next pass); and m - u0 once r1 is zero.
   */
  function {:induction false} ZpzInvLoop(a: nat, m: nat, r0: nat, r1: nat, u0: nat, w: nat): (u: nat)
    requires InvLoopState(a, m, r0, r1, u0, w)
    ensures (a * u) % m == Gcd(a, m) % m
    ensures u <= m
    decreases r1, 1
  {
    if r1 == 0 then
      InvExit(a, m, r0, u0, w);
      m - u0
    else
      ZpzInvPass(a, m, r0, r1, u0, w)
  }

  /** One pass of the loop body, entered with r1 != 0. */
  function {:induction false} ZpzInvPass(a: nat, m: nat, r0: nat, r1: nat, u0: nat, w: nat): (u: nat)
    requires InvLoopState(a, m, r0, r1, u0, w) && r1 > 0
    ensures (a * u) % m == Gcd(a, m) % m
    ensures u <= m
    decreases r1, 0
  {
    var q1 := r0 / r1;
    var r0n := r0 % r1;
    if r0n == 0 then
      InvFound(a, m, r0, r1, u0, w);
      w
    else
      var u0n := u0 + q1 * w;
      var q2 := r1 / r0n;
      var r1n := r1 % r0n;
      InvStep(a, m, r0, r1, u0, w, q1, r0n, q2, r1n);
      ZpzInvLoop(a, m, r0n, r1n, u0n, w + q2 * u0n)
  }

  /** r1 == 0: r0 is the gcd and m - u0 its cofactor. */
  lemma InvExit(a: nat, m: nat, r0: nat, u0: nat, w: nat)
    requires InvLoopState(a, m, r0, 0, u0, w)
    ensures u0 <= m && (a * (m - u0)) % m == Gcd(a, m) % m
  {
    assert w * r0 == m;
    MulMonotone(w, 1, r0);
    assert Gcd(r0, 0) == r0;
    var k := (r0 + u0 * a) / m;
    ExitIdentity(a, m, r0, u0, k);
    CongruentByMultiple(a * (m - u0), r0, a - k, m);
  }

  lemma ExitIdentity(a: int, m: int, r0: int, u0: int, k: int)
    requires m > 0 && Divides(m, r0 + u0 * a) && k == (r0 + u0 * a) / m
    ensures a * (m - u0) == r0 + (a - k) * m
  {
    assert r0 + u0 * a == k * m;
    assert a * (m - u0) == a * m - u0 * a;
  }

  /** r0 mod r1 == 0: r1 is the gcd and w its cofactor. */
  lemma InvFound(a: nat, m: nat, r0: nat, r1: nat, u0: nat, w: nat)
    requires InvLoopState(a, m, r0, r1, u0, w) && r1 > 0 && r0 % r1 == 0
    ensures w <= m && (a * w) % m == Gcd(a, m) % m
  {
    GcdStep(r0, r1);
    assert Gcd(r1, 0) == r1;
    MulMonotone(w, 1, r0);
    var k := (r1 - w * a) / m;
    FoundIdentity(a, m, r1, w, k);
    CongruentByMultiple(a * w, r1, -k, m);
  }

  lemma FoundIdentity(a: int, m: int, r1: int, w: int, k: int)
    requires m > 0 && Divides(m, r1 - w * a) && k == (r1 - w * a) / m
    ensures a * w == r1 + (-k) * m
  {
    assert r1 - w * a == k * m;
  }

  /** One full pass of the loop body keeps the state. */
  lemma InvStep(a: nat, m: nat, r0: nat, r1: nat, u0: nat, w: nat, q1: nat, r0n: nat, q2: nat, r1n: nat)
    requires InvLoopState(a, m, r0, r1, u0, w) && r1 > 0
    requires q1 == r0 / r1 && r0n == r0 % r1 && r0n != 0 && q2 == r1 / r0n && r1n == r1 % r0n
    ensures r1n < r1 && InvLoopState(a, m, r0n, r1n, u0 + q1 * w, w + q2 * (u0 + q1 * w))
  {
    DivFacts(r0, r1);
    DivFacts(r1, r0n);
    GcdStep(r0, r1);
    GcdStep(r1, r0n);
    var u0n := u0 + q1 * w;
    StepCongruence(m, r0 + u0 * a, r1 - w * a, q1);
    StepIdentity1(a, r0, r1, u0, w, q1, r0n);
    StepCongruence(m, r1 - w * a, r0n + u0n * a, q2);
    StepIdentity2(a, r1, w, u0n, q2, r0n, r1n);
    StepMagnitude(r0, r1, u0, w, q1, r0n, q2, r1n, m);
    MulMonotone(u0n, 1, q2);
  }

  /** Divides(m, X) and Divides(m, Y) give Divides(m, X - k*Y). */
  lemma StepCongruence(m: int, X: int, Y: int, k: int)
    requires m > 0 && Divides(m, X) && Divides(m, Y)
    ensures Divides(m, X - k * Y)
  {
    DividesLinear(m, X, Y, 1, -k);
    assert 1 * X + (-k) * Y == X - k * Y;
  }

  lemma StepIdentity1(a: int, r0: int, r1: int, u0: int, w: int, q1: int, r0n: int)
    requires r0 == q1 * r1 + r0n
    ensures r0n + (u0 + q1 * w) * a == (r0 + u0 * a) - q1 * (r1 - w * a)
  {
  }

  lemma StepIdentity2(a: int, r1: int, w: int, u0n: int, q2: int, r0n: int, r1n: int)
    requires r1 == q2 * r0n + r1n
    ensures r1n - (w + q2 * u0n) * a == (r1 - w * a) - q2 * (r0n + u0n * a)
  {
  }

  lemma StepMagnitude(r0: int, r1: int, u0: int, w: int, q1: int, r0n: int, q2: int, r1n: int, m: int)
    requires u0 * r1 + w * r0 == m && r0 == q1 * r1 + r0n && r1 == q2 * r0n + r1n
    ensures (u0 + q1 * w) * r1n + (w + q2 * (u0 + q1 * w)) * r0n == m
  {
    var u0n := u0 + q1 * w;
    assert u0n * r1n + (w + q2 * u0n) * r0n == u0n * r1 + w * r0n by {
      assert u0n * r1 == u0n * r1n + q2 * u0n * r0n;
    }
    assert u0n * r1 + w * r0n == u0 * r1 + w * r0 by {
      assert w * r0 == w * (q1 * r1) + w * r0n;
    }
  }

  /** For a unit a of Z/mZ, `MY_Zpz_inv` is its inverse: composite moduli included. */
  lemma ZpzInvIsInverse(a: nat, m: nat)
    requires a > 0 && m >= 2 && Gcd(a, m) == 1
    ensures (a * ZpzInv(a, m)) % m == 1
  {
    var u := ZpzInv(a, m);
    assert (a * u) % m == 1 % m;
    ModUnique(1, m, 0, 1);
  }

  // ---------------------------------------------------------------------
  // MY_divides and the pivot searches
  // ---------------------------------------------------------------------

  /** `MY_divides(a, b)`: !(b % a), for a non-zero divisor. */
  function MyDivides(a: int, b: int): (r: bool)
    requires a != 0
    ensures r <==> exists k :: b == k * a
  {
    DividesWitness(a, b);
    b % a == 0
  }

  lemma DividesWitness(a: int, b: int)
    requires a != 0
    ensures b % a == 0 <==> exists k :: b == k * a
  {
    if b % a == 0 {
      assert b == (b / a) * a;
    }
    if exists k :: b == k * a {
      var k :| b == k * a;
      ModMultiple(k, a);
    }
  }

  /** A unit of the search: an entry whose value PRIME does not divide. */
  predicate IsUnitAt(PRIME: int, row: Row, i: int)
    requires PRIME != 0 && 0 <= i < |row|
  {
    !MyDivides(PRIME, row[i].1)
  }

  /** Column densities may be read at every stored column. */
  predicate DensityIndexes(row: Row, D: seq<int>)
  {
    forall i :: 0 <= i < |row| ==> row[i].0 < |D|
  }

  /**
   * Position pos is the unit of least density, the earliest one on ties:
   * every unit before it is strictly denser, every unit after it at least
   * as dense.
   */
  ghost predicate EarliestLeastDense(PRIME: int, row: Row, D: seq<int>, pos: int)
    requires PRIME != 0 && DensityIndexes(row, D)
  {
    && 0 <= pos < |row| && IsUnitAt(PRIME, row, pos)
    && (forall i :: 0 <= i < pos && IsUnitAt(PRIME, row, i) ==> D[row[i].0] > D[row[pos].0])
    && (forall i :: pos < i < |row| && IsUnitAt(PRIME, row, i) ==> D[row[i].0] >= D[row[pos].0])
  }

  /** The loop looking for the first unit: the first non-divisible index from j on, or |row|. */
  function FirstUnit(PRIME: int, row: Row, j: nat): (pp: nat)
    requires PRIME != 0 && j <= |row|
    ensures j <= pp <= |row|
    ensures pp < |row| ==> IsUnitAt(PRIME, row, pp)
    ensures forall i :: j <= i < pp ==> !IsUnitAt(PRIME, row, i)
    decreases |row| - j
  {
    if j == |row| || IsUnitAt(PRIME, row, j) then j else FirstUnit(PRIME, row, j + 1)
  }

  /** The density scan: p is replaced only by a later unit of strictly smaller density. */
  function {:induction false} LeastDense(PRIME: int, row: Row, D: seq<int>, j: nat, p: nat): (best: nat)
    requires PRIME != 0 && DensityIndexes(row, D)
    requires p < j <= |row| && IsUnitAt(PRIME, row, p)
    requires forall i :: 0 <= i < p && IsUnitAt(PRIME, row, i) ==> D[row[i].0] > D[row[p].0]
    requires forall i :: p < i < j && IsUnitAt(PRIME, row, i) ==> D[row[i].0] >= D[row[p].0]
    ensures p <= best < |row| && EarliestLeastDense(PRIME, row, D, best)
    decreases |row| - j
  {
    if j == |row| then p
    else if D[row[j].0] < D[row[p].0] && IsUnitAt(PRIME, row, j) then LeastDense(PRIME, row, D, j + 1, j)
    else LeastDense(PRIME, row, D, j + 1, p)
  }

  /** Decrement the density of every column stored in the row. */
  function DecrementAll(D: seq<int>, row: Row): (D': seq<int>)
    requires DensityIndexes(row, D)
    ensures |D'| == |D|
    ensures forall c :: 0 <= c < |D| ==> D'[c] == D[c] - Count(row, c)
  {
    if |row| == 0 then D
    else
      var D1 := DecrementAll(D, row[1..]);
      D1[row[0].0 := D1[row[0].0] - 1]
  }

  /** Outcome of a pivot search: the row as left, the next free column, the pivot's original column or -1/-2, the densities. */
  datatype Pivot = Pivot(row: Row, indcol: nat, c: int, D: seq<int>)

  /**
   * `CherchePivot(PRIME, row, indcol, indpermut, columns)`: -1 for an empty
   * row, -2 when PRIME divides every value, otherwise the least dense unit is
   * brought to the head of the row at column indcol and its old column is
   * returned.
   */
  function CherchePivot(PRIME: int, row: Row, indcol: nat, D: seq<int>): (r: Pivot)
    requires PRIME != 0 && DensityIndexes(row, D)
    requires indcol < |D| || forall i :: 0 <= i < |row| ==> !IsUnitAt(PRIME, row, i)
    ensures r.c == -1 <==> |row| == 0
    ensures r.c == -2 <==> |row| > 0 && forall i :: 0 <= i < |row| ==> !IsUnitAt(PRIME, row, i)
    ensures r.c < 0 ==> r.row == row && r.indcol == indcol && r.D == D
    ensures r.c >= 0 ==> r.indcol == indcol + 1 && |r.row| == |row| && r.row[0].0 == indcol
    ensures r.c >= 0 ==> exists pos :: EarliestLeastDense(PRIME, row, D, pos) && row[pos] == (r.c, r.row[0].1)
    ensures r.c >= 0 ==> DensityIndexes(r.row, D) && r.D == DecrementAll(D, r.row)
  {
    if |row| == 0 then Pivot(row, indcol, -1, D)
    else
      var ip0 := row[0].0;
      var pp := FirstUnit(PRIME, row, 0);
      if pp == |row| then Pivot(row, indcol, -2, D)
      else
        var p := LeastDense(PRIME, row, D, pp + 1, pp);
        var moved := MovePivot(row, indcol, p);
        Pivot(moved, indcol + 1, row[p].0, DecrementAll(D, moved))
  }

  /**
   * Bring entry p to the head: when the head already sits at column indcol
   * only the two values are exchanged, otherwise entry p is rotated to the
   * front; the head is then relabelled to column indcol.
   */
  function MovePivot(row: Row, indcol: nat, p: nat): (moved: Row)
    requires p < |row|
    ensures |moved| == |row| && moved[0] == (indcol, row[p].1)
  {
    var ip0 := row[0].0;
    var row1 :=
      if p == 0 then row
      else if ip0 == indcol then row[0 := (row[0].0, row[p].1)][p := (row[p].0, row[0].1)]
      else [row[p]] + row[..p] + row[p + 1..];
    row1[0 := (indcol, row1[0].1)]
  }

  /** On a sorted row whose columns start at indcol, `MovePivot` is the column transposition (indcol, c). */
  lemma MovePivotTransposes(row: Row, indcol: nat, p: nat)
    requires p < |row| && Sorted(row) && ColsGe(row, indcol)
    ensures var moved := MovePivot(row, indcol, p);
      && Sorted(moved) && ColsGe(moved[1..], indcol + 1)
      && (forall j :: Get(moved, j) == Get(row, Swap(indcol, row[p].0, j)))
      && (forall lo, hi :: ValuesIn(row, lo, hi) ==> ValuesIn(moved, lo, hi))
      && (NoZeros(row) ==> NoZeros(moved))
      && (forall n: nat :: ColsBelow(row, n) && indcol < n ==> ColsBelow(moved, n))
  {
    MovePivotShape(row, indcol, p);
    MovePivotGet(row, indcol, p);
  }

  lemma MovePivotGet(row: Row, indcol: nat, p: nat)
    requires p < |row| && Sorted(row) && ColsGe(row, indcol)
    ensures forall j :: Get(MovePivot(row, indcol, p), j) == Get(row, Swap(indcol, row[p].0, j))
  {
    forall j
      ensures Get(MovePivot(row, indcol, p), j) == Get(row, Swap(indcol, row[p].0, j))
    {
      if p == 0 {
        TransposeHead(row, indcol, j);
      } else if row[0].0 == indcol {
        ExchangeValues(row, p, j);
      } else {
        RotateToFront(row, indcol, p, j);
      }
    }
  }

  /** Every value of the moved row is a value of the original row. */
  predicate ValuesFrom(moved: Row, row: Row)
  {
    forall i :: 0 <= i < |moved| ==> exists k :: 0 <= k < |row| && moved[i].1 == row[k].1
  }

  /** Every column of the moved row is indcol or a column of the original row. */
  predicate ColsFrom(moved: Row, row: Row, indcol: nat)
  {
    forall i :: 0 <= i < |moved| ==> moved[i].0 == indcol || exists k :: 0 <= k < |row| && moved[i].0 == row[k].0
  }

  /** The moved row stays sorted above its head at indcol and carries only values and columns of the row. */
  lemma MovePivotShape(row: Row, indcol: nat, p: nat)
    requires p < |row| && Sorted(row) && ColsGe(row, indcol)
    ensures var moved := MovePivot(row, indcol, p);
      && Sorted(moved) && ColsGe(moved[1..], indcol + 1)
      && (forall lo, hi :: ValuesIn(row, lo, hi) ==> ValuesIn(moved, lo, hi))
      && (NoZeros(row) ==> NoZeros(moved))
      && (forall n: nat :: ColsBelow(row, n) && indcol < n ==> ColsBelow(moved, n))
  {
    var moved := MovePivot(row, indcol, p);
    if p == 0 {
      HeadShape(row, indcol);
    } else if row[0].0 == indcol {
      ExchangeShape(row, p);
    } else {
      RotateShape(row, indcol, p);
    }
    ValuesFromKeeps(moved, row);
    ColsFromKeeps(moved, row, indcol);
  }

  lemma ColsFromKeeps(moved: Row, row: Row, indcol: nat)
    requires ColsFrom(moved, row, indcol)
    ensures forall n: nat :: ColsBelow(row, n) && indcol < n ==> ColsBelow(moved, n)
  {
  }

  lemma ValuesFromKeeps(moved: Row, row: Row)
    requires ValuesFrom(moved, row)
    ensures forall lo, hi :: ValuesIn(row, lo, hi) ==> ValuesIn(moved, lo, hi)
    ensures NoZeros(row) ==> NoZeros(moved)
  {
  }

  lemma HeadShape(row: Row, indcol: nat)
    requires 0 < |row| && Sorted(row) && ColsGe(row, indcol)
    ensures var moved := MovePivot(row, indcol, 0);
      Sorted(moved) && ColsGe(moved[1..], indcol + 1) && ValuesFrom(moved, row) && ColsFrom(moved, row, indcol)
  {
    var moved := MovePivot(row, indcol, 0);
    assert moved == [(indcol, row[0].1)] + row[1..];
    SortedTail(row);
    SortedCons((indcol, row[0].1), row[1..]);
    forall i | 0 <= i < |moved|
      ensures moved[i].1 == row[i].1
      ensures i > 0 ==> moved[i].0 == row[i].0
    {
    }
  }

  lemma ExchangeShape(row: Row, p: nat)
    requires 0 < p < |row| && Sorted(row)
    ensures var moved := MovePivot(row, row[0].0, p);
      Sorted(moved) && ColsGe(moved[1..], row[0].0 + 1) && ValuesFrom(moved, row) && ColsFrom(moved, row, row[0].0)
  {
    var moved := MovePivot(row, row[0].0, p);
    assert moved == row[0 := (row[0].0, row[p].1)][p := (row[p].0, row[0].1)];
    forall i | 0 <= i < |moved|
      ensures moved[i].0 == row[i].0
      ensures moved[i].1 == row[if i == 0 then p else if i == p then 0 else i].1
    {
    }
  }

  lemma RotateShape(row: Row, indcol: nat, p: nat)
    requires 0 < p < |row| && Sorted(row) && ColsGe(row, indcol) && row[0].0 != indcol
    ensures var moved := MovePivot(row, indcol, p);
      Sorted(moved) && ColsGe(moved[1..], indcol + 1) && ValuesFrom(moved, row) && ColsFrom(moved, row, indcol)
  {
    var rest := row[..p] + row[p + 1..];
    var moved := MovePivot(row, indcol, p);
    assert moved == [(indcol, row[p].1)] + rest;
    forall a | 0 <= a < |rest|
      ensures rest[a] == row[if a < p then a else a + 1]
    {
    }
    assert Sorted(rest);
    assert ColsGe(rest, indcol + 1);
    SortedCons((indcol, row[p].1), rest);
    forall i | 0 <= i < |moved|
      ensures moved[i].1 == row[if i == 0 then p else if i <= p then i - 1 else i].1
      ensures i > 0 ==> moved[i].0 == row[if i <= p then i - 1 else i].0
    {
    }
  }

  /** p == 0: relabelling the head from c to indcol, with no entry at indcol to move. */
  lemma TransposeHead(row: Row, indcol: nat, j: nat)
    requires |row| > 0 && Sorted(row) && ColsGe(row, indcol)
    ensures Get(MovePivot(row, indcol, 0), j) == Get(row, Swap(indcol, row[0].0, j))
  {
    var c := row[0].0;
    var moved := MovePivot(row, indcol, 0);
    assert moved == [(indcol, row[0].1)] + row[1..];
    GetCons((indcol, row[0].1), row[1..], j);
    SortedTail(row);
    GetCons(row[0], row[1..], Swap(indcol, c, j));
    assert row == [row[0]] + row[1..];
    if j != indcol && j == c {
      GetBelow(row[1..], c, c + 1);
      if indcol != c {
        GetBelow(row, indcol, c);
      }
    } else if j != indcol && j != c {
      assert Swap(indcol, c, j) == j;
    }
  }

  /** Head at indcol: exchanging the values of positions 0 and p swaps what columns indcol and c read. */
  lemma ExchangeValues(row: Row, p: nat, j: nat)
    requires 0 < p < |row| && Sorted(row)
    ensures Get(MovePivot(row, row[0].0, p), j) == Get(row, Swap(row[0].0, row[p].0, j))
  {
    var indcol := row[0].0;
    var c := row[p].0;
    var moved := MovePivot(row, indcol, p);
    assert moved == row[0 := (indcol, row[p].1)][p := (c, row[0].1)];
    assert Sorted(moved);
    GetAt(moved, 0);
    GetAt(moved, p);
    GetAt(row, 0);
    GetAt(row, p);
    if j != indcol && j != c {
      GetSameOff(row, moved, j);
    }
  }

  /** Rows that agree everywhere except at columns other than j read the same at j. */
  lemma {:induction false} GetSameOff(r: Row, s: Row, j: nat)
    requires |r| == |s|
    requires forall i :: 0 <= i < |r| ==> r[i].0 == s[i].0
    requires forall i :: 0 <= i < |r| && r[i].0 == j ==> r[i].1 == s[i].1
    ensures Get(r, j) == Get(s, j)
  {
    if |r| > 0 {
      GetSameOff(r[1..], s[1..], j);
    }
  }

  /** Head above indcol: rotating entry p to the front and relabelling it indcol. */
  lemma RotateToFront(row: Row, indcol: nat, p: nat, j: nat)
    requires 0 < p < |row| && Sorted(row) && ColsGe(row, indcol) && row[0].0 != indcol
    ensures Get(MovePivot(row, indcol, p), j) == Get(row, Swap(indcol, row[p].0, j))
  {
    var c := row[p].0;
    var rest := row[..p] + row[p + 1..];
    var moved := MovePivot(row, indcol, p);
    assert moved == [(indcol, row[p].1)] + rest;
    GetCons((indcol, row[p].1), rest, j);
    GetAt(row, p);
    if j == indcol {
    } else if j == c {
      GetAbsent(rest, c);
      GetAbsentAt(row, indcol);
    } else {
      GetRemove(row, p, j);
    }
  }

  /** A sorted row starting above indcol does not store indcol. */
  lemma GetAbsentAt(row: Row, indcol: nat)
    requires |row| > 0 && Sorted(row) && ColsGe(row, indcol) && row[0].0 != indcol
    ensures Get(row, indcol) == 0
  {
    GetBelow(row, indcol, indcol + 1);
  }

  /** Removing entry p leaves every other column's reading alone. */
  lemma {:induction false} GetRemove(row: Row, p: nat, j: nat)
    requires p < |row| && row[p].0 != j
    ensures Get(row[..p] + row[p + 1..], j) == Get(row, j)
  {
    if p == 0 {
      assert row[..0] + row[1..] == row[1..];
    } else {
      var rest := row[..p] + row[p + 1..];
      assert rest == [row[0]] + (row[1..][..p - 1] + row[1..][p..]);
      GetCons(row[0], row[1..][..p - 1] + row[1..][p..], j);
      GetRemove(row[1..], p - 1, j);
    }
  }

  /**
   * On a sorted row whose columns start at indcol, a successful search is
   * the column transposition (indcol, c): the row stays sorted, keeps its
   * values, and everything after the head moves past indcol.
   */
  lemma CherchePivotTransposes(PRIME: int, row: Row, indcol: nat, D: seq<int>)
    requires PRIME != 0 && DensityIndexes(row, D)
    requires indcol < |D| || forall i :: 0 <= i < |row| ==> !IsUnitAt(PRIME, row, i)
    requires Sorted(row) && ColsGe(row, indcol)
    ensures var r := CherchePivot(PRIME, row, indcol, D);
      r.c >= 0 ==>
        && indcol <= r.c < |D|
        && Sorted(r.row) && ColsGe(r.row, indcol) && ColsGe(r.row[1..], indcol + 1)
        && (forall j :: Get(r.row, j) == Get(row, Swap(indcol, r.c, j)))
        && (forall lo, hi :: ValuesIn(row, lo, hi) ==> ValuesIn(r.row, lo, hi))
        && (forall n: nat :: ColsBelow(row, n) && indcol < n ==> ColsBelow(r.row, n))
        && IsUnitAt(PRIME, r.row, 0)
  {
    if |row| > 0 {
      var pp := FirstUnit(PRIME, row, 0);
      if pp < |row| {
        var p := LeastDense(PRIME, row, D, pp + 1, pp);
        MovePivotTransposes(row, indcol, p);
        var moved := MovePivot(row, indcol, p);
        assert moved[0].1 == row[p].1;
      }
    }
  }

  /**
   * The densities are decremented on the relabelled row: when the pivot
   * row has no entry at indcol, column indcol loses one and the pivot's
   * original column keeps its count.
   */
  lemma DensityFollowsRelabelledRow()
    ensures CherchePivot(2, [(1, 1)], 0, [0, 1]).D == [-1, 1]
  {
    var r := CherchePivot(2, [(1, 1)], 0, [0, 1]);
    assert MovePivot([(1, 1)], 0, 0) == [(0, 1)];
    assert DecrementAll([0, 1], [(0, 1)]) == [-1, 1];
  }

  // ---------------------------------------------------------------------
  // SameColumnPivoting and its trait
  // ---------------------------------------------------------------------

  /**
   * `SameColumnPivoting`: with the heuristic on, a row whose head already
   * sits at column indcol with a unit value is taken as is; (indcol, c) are
   * returned, with c left as given when it does not fire.
   */
  function SameColumnPivoting(PRIME: int, row: Row, indcol: nat, c: int, on: bool): (r: (nat, int))
    requires PRIME != 0
    ensures on && |row| > 0 && row[0].0 == indcol && IsUnitAt(PRIME, row, 0) ==> r == (indcol + 1, indcol)
    ensures !(on && |row| > 0 && row[0].0 == indcol && IsUnitAt(PRIME, row, 0)) ==> r == (indcol, c)
  {
    if on && |row| > 0 && indcol == row[0].0 && !MyDivides(PRIME, row[0].1) then (indcol + 1, indcol)
    else (indcol, c)
  }

  datatype TraitResult = TraitResult(found: bool, p: nat, indcol: nat, c: int)

  /** The row qualifies for the same-column heuristic. */
  predicate SameColumnReady(PRIME: int, row: Row, indcol: nat)
    requires PRIME != 0
  {
    |row| > 0 && row[0].0 == indcol && IsUnitAt(PRIME, row, 0)
  }

  /**
   * `SameColumnPivotingTrait`: off, it reports failure and changes nothing;
   * on, it walks the rows in the given order and stops at the first that
   * qualifies (p is then that row, c the old indcol); otherwise c is -2.
   */
  function SameColumnPivotingTrait(PRIME: int, rows: seq<Row>, order: seq<nat>, p: nat, indcol: nat, c: int, on: bool): (r: TraitResult)
    requires PRIME != 0
    requires forall i :: 0 <= i < |order| ==> order[i] < |rows|
    ensures !on ==> r == TraitResult(false, p, indcol, c)
    ensures on ==> (r.found <==> exists i :: 0 <= i < |order| && SameColumnReady(PRIME, rows[order[i]], indcol))
    ensures on && r.found ==> r.indcol == indcol + 1 && r.c == indcol as int
    ensures on && r.found ==> exists i :: (0 <= i < |order| && r.p == order[i] && SameColumnReady(PRIME, rows[order[i]], indcol)
      && forall i' :: 0 <= i' < i ==> !SameColumnReady(PRIME, rows[order[i']], indcol))
    ensures on && !r.found ==> r.indcol == indcol && r.c == -2
  {
    if !on then TraitResult(false, p, indcol, c)
    else SameColumnScan(PRIME, rows, order, 0, p, indcol)
  }

  function {:induction false} SameColumnScan(PRIME: int, rows: seq<Row>, order: seq<nat>, i: nat, p: nat, indcol: nat): (r: TraitResult)
    requires PRIME != 0 && i <= |order|
    requires forall k :: 0 <= k < |order| ==> order[k] < |rows|
    requires forall k :: 0 <= k < i ==> !SameColumnReady(PRIME, rows[order[k]], indcol)
    ensures r.found <==> exists k :: 0 <= k < |order| && SameColumnReady(PRIME, rows[order[k]], indcol)
    ensures r.found ==> r.indcol == indcol + 1 && r.c == indcol as int
    ensures r.found ==> exists k :: (0 <= k < |order| && r.p == order[k] && SameColumnReady(PRIME, rows[order[k]], indcol)
      && forall k' :: 0 <= k' < k ==> !SameColumnReady(PRIME, rows[order[k']], indcol))
    ensures !r.found ==> r.indcol == indcol && r.c == -2
    decreases |order| - i
  {
    if i == |order| then TraitResult(false, p, indcol, -2)
    else
      var q := order[i];
      var s := SameColumnPivoting(PRIME, rows[q], indcol, -2, true);
      if s.1 > -2 then TraitResult(true, q, s.0, s.1)
      else SameColumnScan(PRIME, rows, order, i + 1, q, indcol)
  }
}
