# Local Smith form by prime-power sparse elimination, and its supporting pieces

A Dafny model of LinBox's local Smith form over Z/p^eZ and of the code around it.

The centre is `PowerGaussDomainPowerOfPrime` (smith-form-sparseelim-local.h). It takes a sparse integer matrix, held as rows of (column, value) pairs with strictly increasing columns. It eliminates modulo p^e and divides the modulus by p whenever no remaining row has a unit pivot. This gives the ranks modulo p, p^2, ..., p^e, which `operator()` turns into the local Smith form: a list of (multiplicity, p^i) pairs.

The pieces of the elimination are:
- the inverse modulo a composite, `MY_Zpz_inv`;
- the density-guided pivot search `CherchePivot`, with the optional same-column heuristic;
- the two-pointer row merge `FaireElimination`;
- the lifting driver `gauss_rankin`;
- the flag dispatch `prime_power_rankin`.

Around it the model covers:
- CSR and COO sparse storage: append and finalize, sorted set, clear and get, counting-sort transpose, the CSR/COO conversions, `clean`, `compress`, `maxrow` and `nextTriple`;
- the principal-ideal-ring arithmetic of `PIRModular<int32_t>`: gcd, extended and half-extended gcd, `xgcd`, `dxgcd`, `isUnit`, `isDivisor`, `div`, `normal`, and the 64-bit accumulator that repairs unsigned wrap-around with 2^64 mod p;
- the dense textbook Smith form: pivot search, row and column swaps and combinations, `fixDiagonal` and `solve`;
- the companion-matrix constructor;
- RecInt's modular subtraction;
- Givaro's `GivRandom` generator;
- the SMS text writer `tosms`;
- the index, bracket and exterior-power helpers of the sl4 script.

Modules follow the source files:
- `Util`: shared arithmetic;
- `SparseRows`: the row representation;
- `PirModular`;
- `PowerGaussPivot`, `PowerGaussElim`, `PowerGaussRank` and `LocalSmith`: the four layers of the elimination;
- `CsrMatrix`, `CsrOps`, `Counting` and `CsrTranspose`;
- `CooMatrix` and `CooConvert`;
- `SmithMatrix`, `TextbookSmith` and `TextbookSolve`;
- `Companion`, `RecIntSub`, `GivRandomGen`, `SmsFormat`, `Sl4Bracket` and `Sl4Projection`.

Machine integers are unbounded `int`s, with explicit range requirements where the source relies on them. Where the point is wrap-around it is written out: `FieldAXPY`'s uint64 sum, GivRandom's int64/uint64 casts and RecInt's word arithmetic.

One behaviour is modelled as written rather than as a finding. `CherchePivot` relabels the pivot's column to `indcol` before it decrements the densities of the row's columns. When the pivot row has no entry in column `indcol`, the decrement meant for the pivot's original column lands on column `indcol` instead. `PowerGaussPivot.DensityFollowsRelabelledRow` states this.

## Model

| member | source | states |
|---|---|---|
| PowerGaussPivot.ZpzInv | linbox-1.5.2/linbox/algorithms/smith-form-sparseelim-local.h:96-129 | the cofactor u satisfies a*u = gcd(a, m) modulo m and u <= max(m, 1) |
| PowerGaussPivot.ZpzInvFirst | linbox-1.5.2/linbox/algorithms/smith-form-sparseelim-local.h:99-109 | after the first two Euclid steps the cofactor returned still satisfies a*u = gcd(a, m) mod m and u <= m |
| PowerGaussPivot.ZpzInvLoop | linbox-1.5.2/linbox/algorithms/smith-form-sparseelim-local.h:110-123 | the loop, from any state keeping the remainder/cofactor invariant, returns a u with a*u = gcd(a, m) mod m and u <= m, whether it exits through `return u1` or `_p - u0` |
| PowerGaussPivot.ZpzInvPass | linbox-1.5.2/linbox/algorithms/smith-form-sparseelim-local.h:111-119 | one pass of the loop body keeps the result's cofactor property |
| PowerGaussPivot.InvStep | linbox-1.5.2/linbox/algorithms/smith-form-sparseelim-local.h:111-119 | one pass keeps gcd(r0, r1) = gcd(a, m), r0 = -u0*a and r1 = u1*a modulo m, u0*r1 + u1*r0 = m, and strictly decreases r1 |
| PowerGaussPivot.InvExit | linbox-1.5.2/linbox/algorithms/smith-form-sparseelim-local.h:123 | when r1 reaches zero, m - u0 is a cofactor of gcd(a, m) no larger than m |
| PowerGaussPivot.InvFound | linbox-1.5.2/linbox/algorithms/smith-form-sparseelim-local.h:113-115 | when r0 mod r1 is zero, u1 is a cofactor of gcd(a, m) no larger than m |
| PowerGaussPivot.ZpzInvIsInverse | linbox-1.5.2/linbox/algorithms/smith-form-sparseelim-local.h:96-129 | for any a coprime to m > 1 (m need not be prime) the result is the inverse: a*u mod m = 1 |
| PowerGaussPivot.MyDivides | linbox-1.5.2/linbox/algorithms/smith-form-sparseelim-local.h:131-135 | `!(b % a)` holds exactly when b is a multiple of a |
| PowerGaussPivot.FirstUnit | linbox-1.5.2/linbox/algorithms/smith-form-sparseelim-local.h:199-201 | the index found is the first entry whose value PRIME does not divide, or the row length when there is none |
| PowerGaussPivot.LeastDense | linbox-1.5.2/linbox/algorithms/smith-form-sparseelim-local.h:205-212 | the entry chosen is a unit of least column density, and the earliest among those of that density |
| PowerGaussPivot.DecrementAll | linbox-1.5.2/linbox/algorithms/smith-form-sparseelim-local.h:236-237 | each column density drops by the number of times the row stores that column, and nothing else changes |
| PowerGaussPivot.CherchePivot | linbox-1.5.2/linbox/algorithms/smith-form-sparseelim-local.h:191-244 | -1 exactly for an empty row, -2 exactly when PRIME divides every value (then nothing changes), otherwise indcol advances by one, the row keeps its length and its head is the chosen unit at column indcol |
| PowerGaussPivot.MovePivot | linbox-1.5.2/linbox/algorithms/smith-form-sparseelim-local.h:213-234 | the moved row has the same length and its head is the pivot value at column indcol |
| PowerGaussPivot.MovePivotTransposes | linbox-1.5.2/linbox/algorithms/smith-form-sparseelim-local.h:213-234 | on a sorted row whose columns start at indcol, moving the pivot is exactly the column transposition (indcol, c): sorted, same readings after the swap, same values, no zero introduced |
| PowerGaussPivot.CherchePivotTransposes | linbox-1.5.2/linbox/algorithms/smith-form-sparseelim-local.h:191-244 | a successful search returns a column c in [indcol, Nj), leaves the row sorted with a unit head at indcol and everything else past indcol, and reads as the row with columns indcol and c swapped |
| PowerGaussPivot.DensityFollowsRelabelledRow | linbox-1.5.2/linbox/algorithms/smith-form-sparseelim-local.h:228-237 | the densities are decremented after the pivot is relabelled: a pivot row without an entry at indcol takes one from column indcol instead of from the pivot's own column |
| PowerGaussPivot.SameColumnPivoting | linbox-1.5.2/linbox/algorithms/smith-form-sparseelim-local.h:140-152 | with the heuristic on, a row whose head is a unit at column indcol is taken (indcol advances, c = old indcol); in every other case (indcol, c) are unchanged |
| PowerGaussPivot.SameColumnPivotingTrait | linbox-1.5.2/linbox/algorithms/smith-form-sparseelim-local.h:154-173 | off, it reports failure and changes nothing; on, it succeeds exactly when some row in size order has a unit head at indcol, and then p is such a row and c the old indcol |
| PowerGaussPivot.SameColumnScan | linbox-1.5.2/linbox/algorithms/smith-form-sparseelim-local.h:162-171 | the scan succeeds exactly when some listed row qualifies, returns c = -2 otherwise |
| PowerGaussElim.FirstAtLeast | linbox-1.5.2/linbox/algorithms/smith-form-sparseelim-local.h:275-277 | the position found is the first whose column is at least indpermut: every earlier entry lies below it |
| PowerGaussElim.ElimCoefficient | linbox-1.5.2/linbox/algorithms/smith-form-sparseelim-local.h:315-319 | headcoeff is a residue in [0, MOD), zero for a zero head, and with a pivot coprime to MOD it cancels the head: t + H*v = 0 mod MOD |
| PowerGaussElim.PivotIsInvertible | linbox-1.5.2/linbox/algorithms/smith-form-sparseelim-local.h:316-318 | a pivot that PRIME does not divide is invertible modulo every power PRIME^e >= 2, so the coefficient cancels the head |
| PowerGaussElim.UnitOfPrimePower | linbox-1.5.2/linbox/algorithms/smith-form-sparseelim-local.h:201 | a value the prime does not divide is coprime to every power of the prime, which is why the pivot stays a unit as MOD is divided by PRIME |
| PowerGaussElim.Merge | linbox-1.5.2/linbox/algorithms/smith-form-sparseelim-local.h:322-357 | the merged row is sorted, reduced, zero-free, reads M + H*L mod MOD at every column, and each density moves by exactly the columns that appeared or vanished |
| PowerGaussElim.FaireElimination | linbox-1.5.2/linbox/algorithms/smith-form-sparseelim-local.h:257-378 | the new row is sorted above column k = indcol-1, reads 0 at k and T(swap(k, indpermut, j)) + H * P(j) mod MOD elsewhere, and the densities follow exactly the entries that appeared or vanished |
| PowerGaussElim.FaireEliminationIsRowOperation | linbox-1.5.2/linbox/algorithms/smith-form-sparseelim-local.h:279-357 | with an invertible pivot the result is the full row operation T' + H*P on every column, the dropped column k included |
| PowerGaussElim.FaireEliminationExchangeOnly | linbox-1.5.2/linbox/algorithms/smith-form-sparseelim-local.h:359-377 | a row lacking the pivot column is only permuted: it reads as T with columns k and indpermut swapped |
| PowerGaussElim.EliminateWith | linbox-1.5.2/linbox/algorithms/smith-form-sparseelim-local.h:279-357 | exchanging columns k and indpermut, then merging with the scaled pivot row, meets the elimination contract above |
| PowerGaussElim.ExchangeDensities | linbox-1.5.2/linbox/algorithms/smith-form-sparseelim-local.h:282-299 | the exchange keeps the number of columns tracked |
| PowerGaussElim.ExchangeFacts | linbox-1.5.2/linbox/algorithms/smith-form-sparseelim-local.h:282-299 | the exchanged row is the column transposition (k, indpermut) of the row, and the densities follow the moved entry |
| PowerGaussElim.ExchangeAbsent | linbox-1.5.2/linbox/algorithms/smith-form-sparseelim-local.h:359-377 | moving the entry at column k to column indpermut behind the columns below indpermut meets the elimination contract with coefficient zero |
| PowerGaussElim.MoveBackFacts | linbox-1.5.2/linbox/algorithms/smith-form-sparseelim-local.h:363-374 | the shifted row is sorted, above k, and reads as the row with columns k and indpermut swapped |
| PowerGaussElim.ReadbackDensity | linbox-1.5.2/linbox/algorithms/smith-form-sparseelim-local.h:292-347 | the density updates of the exchange, the dropped head and the merge add up to the net change of the row at every column |
| PowerGaussRank.Reduce | linbox-1.5.2/linbox/algorithms/smith-form-sparseelim-local.h:412-414 | the C++ remainder followed by the sign fix-up yields the least non-negative residue r mod MOD, for negative inputs too |
| PowerGaussRank.NormalizeRow | linbox-1.5.2/linbox/algorithms/smith-form-sparseelim-local.h:410-422 | the row keeps its columns' bounds and order, gets no longer, and holds only residues in [1, MOD) |
| PowerGaussRank.NormalizeRows | linbox-1.5.2/linbox/algorithms/smith-form-sparseelim-local.h:403-426 | every row reads its input value mod MOD at every column, without zeros, and each column's density is the number of rows reading non-zero there |
| PowerGaussRank.IncrementAll | linbox-1.5.2/linbox/algorithms/smith-form-sparseelim-local.h:415-416 | each column density grows by the number of times the row stores that column |
| PowerGaussRank.AddRowDensity | linbox-1.5.2/linbox/algorithms/smith-form-sparseelim-local.h:415-416 | after one more normalised row, each density is the number of rows so far storing that column |
| PowerGaussRank.SizeOrder | linbox-1.5.2/linbox/algorithms/smith-form-sparseelim-local.h:444-446 | the multimap `psizes` read in order lists each row index from k on exactly once, by non-decreasing size, equal sizes in index order |
| PowerGaussRank.InsertBySize | linbox-1.5.2/linbox/algorithms/smith-form-sparseelim-local.h:446 | inserting one more index keeps the order by (size, index) and adds exactly that index |
| PowerGaussRank.DivideRow | linbox-1.5.2/linbox/algorithms/smith-form-sparseelim-local.h:471-472 | every value is replaced by its quotient by PRIME and the columns stay |
| PowerGaussRank.DivideRows | linbox-1.5.2/linbox/algorithms/smith-form-sparseelim-local.h:470-472 | rows from k on are divided, the rows above are untouched |
| PowerGaussRank.DivideRowExact | linbox-1.5.2/linbox/algorithms/smith-form-sparseelim-local.h:470-473 | a row without a unit modulo PRIME^(j+1) divides exactly: it reads PRIME times less everywhere and is a valid row modulo PRIME^j |
| PowerGaussRank.DivideStep | linbox-1.5.2/linbox/algorithms/smith-form-sparseelim-local.h:469-475 | when every row from k on is stuck, the modulus is above 1 and the division of rows and modulus by PRIME is exact, keeping the rows valid modulo the new MOD |
| PowerGaussRank.SearchRows | linbox-1.5.2/linbox/algorithms/smith-form-sparseelim-local.h:462-467 | -2 exactly leaves the rows and densities alone with every row from k on stuck; otherwise row p is pivoted (empty for -1, a unit head at indcol for a column) and indcol advances only for a column |
| PowerGaussRank.TakePivot | linbox-1.5.2/linbox/algorithms/smith-form-sparseelim-local.h:463-466 | the search ending at row p leaves that row pivoted and the rows above k untouched |
| PowerGaussRank.TryTrait | linbox-1.5.2/linbox/algorithms/smith-form-sparseelim-local.h:459-460 | the heuristic fires only when it is on and returns a row from k on with a unit head at indcol; when it is on and does not fire, no such row exists |
| PowerGaussRank.FindPivot | linbox-1.5.2/linbox/algorithms/smith-form-sparseelim-local.h:440-481 | the pivot search with lifting: MOD stays PRIME^j, every division records the current rank once, the rows above k are untouched and the rows from k on read the input divided by the powers taken out |
| PowerGaussRank.EliminateBelow | linbox-1.5.2/linbox/algorithms/smith-form-sparseelim-local.h:497-498 | every row below k is the row operation of `FaireElimination` against row k, rows up to k are untouched and all rows stay active |
| PowerGaussRank.Permute | linbox-1.5.2/linbox/algorithms/smith-form-sparseelim-local.h:491-492 | the column order gets positions a and b exchanged, stays a permutation of itself, and nothing else moves |
| PowerGaussRank.PreserveUpperMatrixRow | linbox-1.5.2/linbox/algorithms/smith-form-sparseelim-local.h:248-254 | the pivot row is kept when the upper matrix is preserved and cleared otherwise |
| PowerGaussRank.EliminationStep | linbox-1.5.2/linbox/algorithms/smith-form-sparseelim-local.h:436-507 | one pass of the main loop keeps the rows above k, keeps Q a permutation, records one rank per division and keeps MOD = PRIME^j |
| PowerGaussRank.LastRowPivot | linbox-1.5.2/linbox/algorithms/smith-form-sparseelim-local.h:509-518 | the last row's search ends with a pivot or an empty row, each division recording the old indcol, and indcol grows by at most one |
| PowerGaussRank.StartLastRow | linbox-1.5.2/linbox/algorithms/smith-form-sparseelim-local.h:509-511 | -2 exactly when the row is stuck (nothing then changes); otherwise an empty row or a unit head at indcol |
| PowerGaussRank.LiftLastRow | linbox-1.5.2/linbox/algorithms/smith-form-sparseelim-local.h:512-518 | each pass records indcol, divides the row and the modulus exactly, and the loop ends with c != -2 |
| PowerGaussRank.SearchAfterLift | linbox-1.5.2/linbox/algorithms/smith-form-sparseelim-local.h:517 | the search after a division ends the loop or lifts again, recording indcol each time |
| PowerGaussRank.SearchLastRow | linbox-1.5.2/linbox/algorithms/smith-form-sparseelim-local.h:511-517 | -2 exactly for a stuck row, which then stays as it was |
| PowerGaussRank.DivideStuckRow | linbox-1.5.2/linbox/algorithms/smith-form-sparseelim-local.h:514-516 | a stuck row modulo PRIME^j divides exactly into a valid row modulo PRIME^(j-1) |
| PowerGaussRank.RecordRemaining | linbox-1.5.2/linbox/algorithms/smith-form-sparseelim-local.h:519-522 | one copy of indcol is recorded per power of PRIME left, after which MOD is 1 |
| PowerGaussRank.FinishLastRow | linbox-1.5.2/linbox/algorithms/smith-form-sparseelim-local.h:509-522 | the ranks end with exactly e entries, non-decreasing, the last one the final rank |
| PowerGaussRank.FinalRanks | linbox-1.5.2/linbox/algorithms/smith-form-sparseelim-local.h:512-522 | the ranks recorded during the last row's lifting and after it complete a non-decreasing list of length e ending with the final rank |
| PowerGaussRank.EchelonExtend | linbox-1.5.2/linbox/algorithms/smith-form-sparseelim-local.h:490-506 | each kept pivot row is empty or has a unit head at the next pivot column, so the kept rows stay in echelon form |
| PowerGaussRank.GaussRankin | linbox-1.5.2/linbox/algorithms/smith-form-sparseelim-local.h:385-533 | one rank per power of PRIME in FMOD, non-decreasing, the last the number of pivots found, at most the numbers of rows and columns; Q stays a permutation; the kept rows are in echelon form with one non-empty row per unit of rank, or cleared when not preserved |
| LocalSmith.StrategyOf | linbox-1.5.2/linbox/algorithms/smith-form-sparseelim-local.h:536-551 | same-column pivoting is chosen exactly when bit 0 of StaticParameters is set, keeping the upper matrix exactly when bit 2 is |
| LocalSmith.DefaultStrategy | linbox-1.5.2/linbox/algorithms/smith-form-sparseelim-local.h:536 | the default parameter selects same-column pivoting with the upper matrix cleared |
| LocalSmith.ReducingFillinIgnored | linbox-1.5.2/linbox/algorithms/smith-form-sparseelim-local.h:536-551 | no branch reads the PRIVILEGIATE_REDUCING_FILLIN bit: flipping it selects the same strategy |
| LocalSmith.StrategiesReachable | linbox-1.5.2/linbox/algorithms/smith-form-sparseelim-local.h:536-551 | each of the four instantiations of `gauss_rankin` is selected by the flags that name it |
| LocalSmith.PrimePowerRankin | linbox-1.5.2/linbox/algorithms/smith-form-sparseelim-local.h:536-551 | `gauss_rankin`'s guarantees under the chosen strategy: e non-decreasing ranks ending with the rank, Q a permutation |
| LocalSmith.SizeSub | linbox-1.5.2/linbox/algorithms/smith-form-sparseelim-local.h:563 | the `size_t` difference wraps modulo 2^64 and is the true difference when no borrow occurs |
| LocalSmith.FactorsAreSmithForm | linbox-1.5.2/linbox/algorithms/smith-form-sparseelim-local.h:559-569 | `LocalSmith.FactorsFrom`: on non-decreasing ranks below 2^64 the loop emits exactly the local Smith form: the pair (ranks[i] - ranks[i-1], PRIME^i) for every positive gain, in order |
| LocalSmith.SmithFormCountsRank | linbox-1.5.2/linbox/algorithms/smith-form-sparseelim-local.h:559-569 | the multiplicities emitted add up to the rank gained over the steps covered |
| LocalSmith.SmithFormEntries | linbox-1.5.2/linbox/algorithms/smith-form-sparseelim-local.h:563-566 | every emitted pair is a positive rank gain at its own power of PRIME |
| LocalSmith.SmithFormComplete | linbox-1.5.2/linbox/algorithms/smith-form-sparseelim-local.h:563-566 | every positive rank gain is emitted |
| LocalSmith.SmithFormIncreasing | linbox-1.5.2/linbox/algorithms/smith-form-sparseelim-local.h:566 | the emitted moduli strictly increase |
| LocalSmith.LocalSmithForm | linbox-1.5.2/linbox/algorithms/smith-form-sparseelim-local.h:554-570 | the list is the local Smith form of the ranks: multiplicities positive and adding up to the last rank computed, moduli strictly increasing powers of PRIME |
| CsrMatrix.RowOf | linbox-1.5.2/linbox/matrix/sparsematrix/sparse-csr-matrix.h:576-584 | row i is the slice [start[i], start[i+1]) of `colid` and `data`, paired in storage order |
| CsrMatrix.Empty | linbox-1.5.2/linbox/matrix/sparsematrix/sparse-csr-matrix.h:137-159 | the `(F)` and `(F, m, n)` constructors give a valid m x n matrix with no entries, reading zero everywhere |
| CsrMatrix.LowerBound | linbox-1.5.2/linbox/matrix/sparsematrix/sparse-csr-matrix.h:585 | `std::lower_bound` gives the first position of the range whose column is not below j, or the end |
| CsrMatrix.GetEntry | linbox-1.5.2/linbox/matrix/sparsematrix/sparse-csr-matrix.h:574-597 | the search path of `getEntry`, without the `_triples` shortcut: a non-zero answer is the value stored for column j in row i; a row that does not store j answers zero |
| CsrMatrix.GetEntryReadsRow | linbox-1.5.2/linbox/matrix/sparsematrix/sparse-csr-matrix.h:574-597 | on a valid matrix the search path of `getEntry(i, j)` (the corrected `getEntry`) is exactly entry (i, j) of the matrix the rows describe |
| CsrMatrix.Insert | linbox-1.5.2/linbox/matrix/sparsematrix/sparse-csr-matrix.h:673-695 | inserting keeps the storage shaped with one more entry |
| CsrMatrix.InsertRows | linbox-1.5.2/linbox/matrix/sparsematrix/sparse-csr-matrix.h:673-695 | the insertion leaves every other row alone and puts (j, e) at its place in row i |
| CsrMatrix.Erase | linbox-1.5.2/linbox/matrix/sparsematrix/sparse-csr-matrix.h:790-796 | erasing keeps the storage shaped with one entry fewer |
| CsrMatrix.EraseRows | linbox-1.5.2/linbox/matrix/sparsematrix/sparse-csr-matrix.h:790-796 | the erasure leaves every other row alone and removes exactly the erased position from row i |
| CsrMatrix.Replace | linbox-1.5.2/linbox/matrix/sparsematrix/sparse-csr-matrix.h:698-702 | overwriting a value keeps the storage shape and entry count |
| CsrMatrix.ReplaceRows | linbox-1.5.2/linbox/matrix/sparsematrix/sparse-csr-matrix.h:698-702 | only the overwritten position of row i changes |
| CsrMatrix.ClearEntryAsWritten | linbox-1.5.2/linbox/matrix/sparsematrix/sparse-csr-matrix.h:772-798 | `clearEntry` as written keeps the storage shaped (it may erase the wrong entry, see Findings) |
| CsrMatrix.ClearEntryAsWrittenErasesNeighbour | linbox-1.5.2/linbox/matrix/sparsematrix/sparse-csr-matrix.h:785-796 | clearing the absent entry (0, 0) of a 1 x 2 matrix storing only (0, 1) erases (0, 1) |
| CsrMatrix.ClearEntry | linbox-1.5.2/linbox/matrix/sparsematrix/sparse-csr-matrix.h:772-798 | `clearEntry`, erasing only when the lower bound holds column j, keeps the storage shaped |
| CsrMatrix.ClearEntryClears | linbox-1.5.2/linbox/matrix/sparsematrix/sparse-csr-matrix.h:772-798 | after the corrected `clearEntry(i, j)` the matrix stays valid, reads 0 at (i, j) and its old entries everywhere else |
| CsrMatrix.SetEntry | linbox-1.5.2/linbox/matrix/sparsematrix/sparse-csr-matrix.h:656-703 | `setEntry` with its zero branch sent to the corrected `clearEntry` keeps the storage shaped and the dimensions |
| CsrMatrix.SetEntryUpdates | linbox-1.5.2/linbox/matrix/sparsematrix/sparse-csr-matrix.h:656-703 | after the corrected `setEntry(i, j, e)` the matrix stays valid, reads e at (i, j) and its old entries everywhere else, and stores no zero if it stored none |
| CsrMatrix.SetEntryRow | linbox-1.5.2/linbox/matrix/sparsematrix/sparse-csr-matrix.h:664-702 | each branch of the corrected `setEntry` (clear, insert into an empty row, insert at the lower bound, replace) leaves row i sorted, reading e at j and the old values elsewhere |
| CsrMatrix.ClearEntryAsWrittenAgrees | linbox-1.5.2/linbox/matrix/sparsematrix/sparse-csr-matrix.h:772-798 | `clearEntry` as written and the corrected one give the same matrix exactly when row i does not lack column j while storing a column above it |
| CsrMatrix.SetEntryAsWritten | linbox-1.5.2/linbox/matrix/sparsematrix/sparse-csr-matrix.h:656-703 | `setEntry` as written, whose zero goes to the unchecked `clearEntry`, keeps the storage shaped and the dimensions |
| CsrMatrix.SetEntryAsWrittenAgrees | linbox-1.5.2/linbox/matrix/sparsematrix/sparse-csr-matrix.h:664-666 | `setEntry` as written equals the corrected one exactly when e is non-zero or row i does not lack column j while storing a column above it |
| CsrMatrix.SetEntryAsWrittenErasesNeighbour | linbox-1.5.2/linbox/matrix/sparsematrix/sparse-csr-matrix.h:664-666 | `setEntry(0, 0, 0)` on a 1 x 2 matrix storing only (0, 1) = 5 erases that entry, while the corrected `setEntry` keeps it |
| CsrMatrix.FromRows | linbox-1.5.2/linbox/matrix/sparsematrix/sparse-csr-matrix.h:298-325 | laying rows end to end with `start` the prefix lengths gives a shaped matrix whose row i is rows[i] |
| CsrMatrix.FromRowsValid | linbox-1.5.2/linbox/matrix/sparsematrix/sparse-csr-matrix.h:298-325 | built from sorted rows with columns below n the matrix is valid and reads rows[i] at row i |
| CsrOps.Resize | linbox-1.5.2/linbox/matrix/sparsematrix/sparse-csr-matrix.h:615-619 | `std::vector::resize(n)` truncates or pads with the default value |
| CsrOps.AppendEntry | linbox-1.5.2/linbox/matrix/sparsematrix/sparse-csr-matrix.h:606-633 | a zero is ignored; otherwise (j, e) is pushed at the end, nbnz grows by one and only row i's count grows |
| CsrOps.AppendEntryPending | linbox-1.5.2/linbox/matrix/sparsematrix/sparse-csr-matrix.h:606-633 | a sequence of appends keeps the row counts adding up to nbnz, ready for `finalize` |
| CsrOps.Accumulate | linbox-1.5.2/linbox/matrix/sparsematrix/sparse-csr-matrix.h:639-640 | the loop turns the counts into prefix sums up to rownb and touches nothing past it |
| CsrOps.Finalize | linbox-1.5.2/linbox/matrix/sparsematrix/sparse-csr-matrix.h:636-645 | only `start` changes, and nothing at all when start[rownb] already equals nbnz |
| CsrOps.FinalizeOffsets | linbox-1.5.2/linbox/matrix/sparsematrix/sparse-csr-matrix.h:636-645 | after appends, `finalize` makes start[k] the number of entries in rows before k, so the matrix is shaped; the early exit is sound |
| CsrOps.FinalizeIdempotent | linbox-1.5.2/linbox/matrix/sparsematrix/sparse-csr-matrix.h:636-645 | finalising twice is finalising once |
| CsrOps.LastNonEmpty | linbox-1.5.2/linbox/matrix/sparsematrix/sparse-csr-matrix.h:992-996 | the loop stops at the last i whose slice is not empty, every row after it being empty |
| CsrOps.CompressDropsEmptyRows | linbox-1.5.2/linbox/matrix/sparsematrix/sparse-csr-matrix.h:989-999 | `CsrOps.Compress`: `compress` keeps the matrix shaped and every kept row intact, drops only empty trailing rows, and the last kept row is non-empty |
| CsrOps.MaxRowFrom | linbox-1.5.2/linbox/matrix/sparsematrix/sparse-csr-matrix.h:899-900 | the loop's maximum bounds every row length from i on and is the start value or one of those lengths |
| CsrOps.MaxRowIsLongest | linbox-1.5.2/linbox/matrix/sparsematrix/sparse-csr-matrix.h:896-902 | `CsrOps.MaxRow`: on a matrix with at least one row, `maxrow` is the length of some row and no row is longer |
| CsrOps.Climb | linbox-1.5.2/linbox/matrix/sparsematrix/sparse-csr-matrix.h:1455-1462 | the cursor's row only moves forward and stays inside `start` |
| CsrOps.NextTriple | linbox-1.5.2/linbox/matrix/sparsematrix/sparse-csr-matrix.h:1050-1064 | the cursor stays well formed after every call |
| CsrOps.NextTripleStep | linbox-1.5.2/linbox/matrix/sparsematrix/sparse-csr-matrix.h:1050-1064 | the (p+1)-th call yields the entry at position p with the row owning it; the call after the last entry reports the end and resets |
| CsrOps.GetEntryAsWritten | linbox-1.5.2/linbox/matrix/sparsematrix/sparse-csr-matrix.h:564-599 | `getEntry` with its `_triples` shortcut keeps the cursor well formed, and a non-zero answer is a value stored for column j (in some row) |
| CsrOps.GetEntryAsWrittenCurrent | linbox-1.5.2/linbox/matrix/sparsematrix/sparse-csr-matrix.h:569-573 | while the cursor is one `nextTriple` reaches on the current storage, `getEntry` with the shortcut reads exactly entry (i, j) |
| CsrOps.GetEntryAsWrittenStaleCursor | linbox-1.5.2/linbox/matrix/sparsematrix/sparse-csr-matrix.h:569-573 | after `setEntry(1, 0, 5)`, `getEntry(1, 0)`, `setEntry(0, 1, 7)`, `setEntry(0, 2, 9)` on the empty 2 x 3 matrix, `getEntry(1, 2)` returns 9 where the matrix holds 0 |
| CsrOps.EnumerateAll | linbox-1.5.2/linbox/matrix/sparsematrix/sparse-csr-matrix.h:1045-1064 | from `firstTriple`, the calls yield every stored entry once in storage order and then stop |
| CsrOps.StorageTriplesAreEntries | linbox-1.5.2/linbox/matrix/sparsematrix/sparse-csr-matrix.h:1050-1064 | on a valid matrix every triple yielded is an entry of the matrix |
| CsrOps.CleanAsWritten | linbox-1.5.2/linbox/matrix/sparsematrix/sparse-csr-matrix.h:803-817 | `clean` as written keeps the vector lengths matched and leaves nbnz and the dimensions untouched |
| CsrOps.CleanAsWrittenExample | linbox-1.5.2/linbox/matrix/sparsematrix/sparse-csr-matrix.h:806-811 | on a valid 2 x 2 matrix with a stored zero at (0, 1) and 7 at (1, 0), `clean` lowers start[2] instead of start[1], moving the 7 into row 0, and nbnz still says 3 for 2 entries |
| CsrOps.DropZeros | linbox-1.5.2/linbox/matrix/sparsematrix/sparse-csr-matrix.h:806-815 | the row loses its stored zeros and nothing else, keeping its order |
| CsrOps.Clean | linbox-1.5.2/linbox/matrix/sparsematrix/sparse-csr-matrix.h:803-817 | the corrected `clean` keeps the storage shaped and never adds entries |
| CsrOps.CleanKeepsEntries | linbox-1.5.2/linbox/matrix/sparsematrix/sparse-csr-matrix.h:803-817 | the corrected `clean` keeps a valid matrix valid, stores no zero, and reads the same everywhere |
| Counting.Counts | linbox-1.5.2/linbox/matrix/sparsematrix/sparse-csr-matrix.h:492-496 | after n positions counter c+1 holds the number of positions of key c, counter 0 is zero, and the counters add up to n |
| Counting.PrefixCounts | linbox-1.5.2/linbox/matrix/sparsematrix/sparse-csr-matrix.h:500-501 | the accumulated offsets start at 0, end at the number of entries, never decrease and step by the counts |
| Counting.PrefixCountsPartition | linbox-1.5.2/linbox/matrix/sparsematrix/sparse-csr-matrix.h:492-501 | the two passes split [0, nbnz) into one slice per key, sized by its number of entries, offset k being the number of entries with a key below k |
| CsrTranspose.ScatterPlaced | linbox-1.5.2/linbox/matrix/sparsematrix/sparse-csr-matrix.h:503-518 | every write lands inside its column's slice (so `cur_place < size()` always holds) and each column receives its entries in storage order, with the owning row |
| CsrTranspose.TransposeRows | linbox-1.5.2/linbox/matrix/sparsematrix/sparse-csr-matrix.h:487-525 | `CsrTranspose.Transpose`: the transpose is shaped with the dimensions swapped and row c is column c of A in storage order |
| CsrTranspose.ColumnSorted | linbox-1.5.2/linbox/matrix/sparsematrix/sparse-csr-matrix.h:506-516 | column c of a valid matrix lists strictly increasing rows, below rownb |
| CsrTranspose.TransposeEntries | linbox-1.5.2/linbox/matrix/sparsematrix/sparse-csr-matrix.h:487-525 | `CsrTranspose.Transpose`: the transpose of a valid matrix is valid, swaps dimensions, keeps nbnz, reads A(i, j) at (j, i), and stores no zero if A stores none |
| CsrTranspose.TransposeTwice | linbox-1.5.2/linbox/matrix/sparsematrix/sparse-csr-matrix.h:477-525 | transposing twice reads the original matrix back |
| CooMatrix.LookupAt | linbox-1.5.2/linbox/matrix/sparsematrix/sparse-coo-matrix.h:481-519 | in an ordered matrix each stored triple is what the matrix reads at its (row, column) |
| CooMatrix.LookupAbsent | linbox-1.5.2/linbox/matrix/sparsematrix/sparse-coo-matrix.h:500-511 | a pair no triple holds reads zero |
| CooMatrix.AppendEntryUpdates | linbox-1.5.2/linbox/matrix/sparsematrix/sparse-coo-matrix.h:526-548 | `CooMatrix.AppendEntry`: appending in row-major order keeps the matrix ordered; a zero changes nothing, a non-zero e makes (i, j) read e and leaves every other entry alone |
| CooMatrix.SetTriple | linbox-1.5.2/linbox/matrix/sparsematrix/sparse-coo-matrix.h:869-893 | loc = nnz appends (nnz grows by one), loc < nnz overwrites in place; position loc holds (i, j, e) and every other position is unchanged |
| CooMatrix.SetTriplesStores | linbox-1.5.2/linbox/matrix/sparsematrix/sparse-coo-matrix.h:869-893 | filling positions 0, 1, ... with `setTriple` stores exactly the given triples in order |
| CooMatrix.SetTripleSame | linbox-1.5.2/linbox/matrix/sparsematrix/sparse-coo-matrix.h:889-891 | writing a position's own triple back changes nothing |
| CooMatrix.RowBegin | linbox-1.5.2/linbox/matrix/sparsematrix/sparse-coo-matrix.h:497-498 | the lower end of `std::equal_range` on rowid lies within the triples |
| CooMatrix.RowEnd | linbox-1.5.2/linbox/matrix/sparsematrix/sparse-coo-matrix.h:497-499 | the upper end of `std::equal_range` is not below its lower end |
| CooMatrix.EqualRangeIsRow | linbox-1.5.2/linbox/matrix/sparsematrix/sparse-coo-matrix.h:497-499 | in an ordered matrix `equal_range` is exactly the run of row i's triples: rows before it are smaller, rows after it larger |
| CooMatrix.Slot | linbox-1.5.2/linbox/matrix/sparsematrix/sparse-coo-matrix.h:504-507 | the lower bound of j among row i's columns lies inside the row's range |
| CooMatrix.SlotSplits | linbox-1.5.2/linbox/matrix/sparsematrix/sparse-coo-matrix.h:504-507 | every triple before the slot comes before (i, j) in row-major order, every other triple from it on after, and (i, j) can only sit at the slot |
| CooMatrix.GetEntry | linbox-1.5.2/linbox/matrix/sparsematrix/sparse-coo-matrix.h:495-517 | a non-zero answer is a stored value of column j |
| CooMatrix.GetEntryIsLookup | linbox-1.5.2/linbox/matrix/sparsematrix/sparse-coo-matrix.h:481-519 | on an ordered matrix `getEntry(i, j)` reads the matrix the triples describe |
| CooMatrix.InsertAt | linbox-1.5.2/linbox/matrix/sparsematrix/sparse-coo-matrix.h:583-600 | inserting into all three vectors keeps them consistent with one more triple |
| CooMatrix.InsertUpdates | linbox-1.5.2/linbox/matrix/sparsematrix/sparse-coo-matrix.h:581-601 | inserting (i, j, e) between its row-major neighbours keeps the order and changes only entry (i, j) |
| CooMatrix.ReplaceUpdates | linbox-1.5.2/linbox/matrix/sparsematrix/sparse-coo-matrix.h:604-607 | overwriting a value keeps the order and changes only that triple's entry |
| CooMatrix.EraseAt | linbox-1.5.2/linbox/matrix/sparsematrix/sparse-coo-matrix.h:698-702 | erasing from all three vectors keeps them consistent with one triple fewer |
| CooMatrix.EraseUpdates | linbox-1.5.2/linbox/matrix/sparsematrix/sparse-coo-matrix.h:698-702 | erasing a position keeps the order, makes its pair read zero and leaves every other entry alone |
| CooMatrix.ClearEntryAsWritten | linbox-1.5.2/linbox/matrix/sparsematrix/sparse-coo-matrix.h:679-705 | `clearEntry` as written keeps the vectors consistent and removes at most one triple (possibly the wrong one, see Findings) |
| CooMatrix.ClearEntryAsWrittenErasesNeighbour | linbox-1.5.2/linbox/matrix/sparsematrix/sparse-coo-matrix.h:691-702 | clearing the absent entry (0, 0) of a matrix storing only (0, 1) = 5 erases (0, 1) |
| CooMatrix.ClearEntry | linbox-1.5.2/linbox/matrix/sparsematrix/sparse-coo-matrix.h:679-705 | the corrected `clearEntry` keeps the vectors consistent and removes at most one triple |
| CooMatrix.ClearEntryClears | linbox-1.5.2/linbox/matrix/sparsematrix/sparse-coo-matrix.h:679-705 | the corrected `clearEntry(i, j)` keeps the order, makes (i, j) read zero and leaves every other entry alone |
| CooMatrix.SetEntryUpdates | linbox-1.5.2/linbox/matrix/sparsematrix/sparse-coo-matrix.h:565-609 | `CooMatrix.SetEntry`: after the corrected `setEntry(i, j, e)`, whose zero goes to the corrected `clearEntry`, the matrix stays ordered, reads e at (i, j) and its old entries elsewhere, and stores no zero if it stored none |
| CooMatrix.ClearEntryAsWrittenAgrees | linbox-1.5.2/linbox/matrix/sparsematrix/sparse-coo-matrix.h:679-705 | `clearEntry` as written and the corrected one give the same triples exactly when row i does not lack (i, j) while storing a column above j |
| CooMatrix.SetEntryAsWrittenAgrees | linbox-1.5.2/linbox/matrix/sparsematrix/sparse-coo-matrix.h:571-573 | `CooMatrix.SetEntryAsWritten`: `setEntry` as written, whose zero goes to the unchecked `clearEntry`, equals the corrected one exactly when e is non-zero or row i does not lack (i, j) while storing a column above j |
| CooMatrix.SetEntryAsWrittenErasesNeighbour | linbox-1.5.2/linbox/matrix/sparsematrix/sparse-coo-matrix.h:571-573 | `setEntry(0, 0, 0)` on a matrix storing only (0, 1) = 5 erases that triple, while the corrected `setEntry` keeps it |
| CooMatrix.NextTriple | linbox-1.5.2/linbox/matrix/sparsematrix/sparse-coo-matrix.h:942-955 | the cursor never drops below its reset value -1 |
| CooMatrix.EnumerateAll | linbox-1.5.2/linbox/matrix/sparsematrix/sparse-coo-matrix.h:937-955 | from `firstTriple` the calls yield every triple once in storage order, then report the end and reset the cursor |
| CooConvert.FillRange | linbox-1.5.2/linbox/matrix/sparsematrix/sparse-coo-matrix.h:330-331 | the inner loop writes v over exactly the positions of [lo, hi) |
| CooConvert.RowidFillRows | linbox-1.5.2/linbox/matrix/sparsematrix/sparse-coo-matrix.h:329-331 | the loop writes, at every stored position, the row that owns it |
| CooConvert.ToCsrShaped | linbox-1.5.2/linbox/matrix/sparsematrix/sparse-coo-matrix.h:347-367 | `CooConvert.ToCsr`: the exported CSR matrix is shaped and row i's slice has as many entries as the COO matrix has triples in row i |
| CooConvert.ToCsrEntries | linbox-1.5.2/linbox/matrix/sparsematrix/sparse-coo-matrix.h:347-367 | `CooConvert.ToCsr`: an ordered COO matrix exports to a valid CSR matrix reading the same entries, with no zero if it had none |
| CooConvert.FromCsrRows | linbox-1.5.2/linbox/matrix/sparsematrix/sparse-coo-matrix.h:324-333 | `CooConvert.FromCsr`: importing from CSR gives consistent vectors whose rowid is each position's owning row, hence non-decreasing |
| CooConvert.FromCsrEntries | linbox-1.5.2/linbox/matrix/sparsematrix/sparse-coo-matrix.h:324-333 | `CooConvert.FromCsr`: a valid CSR matrix imports as an ordered COO matrix reading the same entries, with no zero if it had none |
| CooConvert.CooCsrCoo | linbox-1.5.2/linbox/matrix/sparsematrix/sparse-coo-matrix.h:324-367 | a COO matrix whose rows never decrease comes back unchanged from `exporte` then `importe` |
| CooConvert.CsrCooCsr | linbox-1.5.2/linbox/matrix/sparsematrix/sparse-coo-matrix.h:324-367 | a CSR matrix with rownb + 1 offsets comes back unchanged from `importe` then `exporte` |
| CooConvert.TransposeViaCsr | linbox-1.5.2/linbox/matrix/sparsematrix/sparse-coo-matrix.h:396-442 | `CooConvert.Transpose`: the COO transpose is the CSR transpose of the exported matrix, imported back |
| CooConvert.TransposeRowsSorted | linbox-1.5.2/linbox/matrix/sparsematrix/sparse-coo-matrix.h:396-442 | `CooConvert.Transpose`: for any consistent input the transpose swaps the dimensions, keeps nnz and has non-decreasing rowid |
| CooConvert.TransposeEntries | linbox-1.5.2/linbox/matrix/sparsematrix/sparse-coo-matrix.h:396-442 | an ordered matrix transposes to an ordered matrix with S(j, i) = A(i, j) |
| PirModular.GCD | linbox-1.5.2/linbox/ring/pir-modular-int32.h:262-288 | throws exactly when an argument is INT32_MIN; otherwise the result is non-negative, divides both arguments and is divided by every common divisor |
| PirModular.GcdLoop | linbox-1.5.2/linbox/ring/pir-modular-int32.h:278-286 | Euclid's loop on the magnitudes ends with a common divisor of both that every common divisor divides, zero only when both are zero |
| PirModular.XGCD | linbox-1.5.2/linbox/ring/pir-modular-int32.h:290-333 | throws exactly for INT32_MIN; otherwise d = gcd(\|a\|, \|b\|) = s*a + t*b after the sign fix-ups, with \|s\| <= max(\|b\|, 1) and \|t\| <= max(\|a\|, 1) |
| PirModular.XgcdLoop | linbox-1.5.2/linbox/ring/pir-modular-int32.h:312-327 | the loop ends with the gcd and Bezout cofactors bounded by the other operand |
| PirModular.XgcdStep | linbox-1.5.2/linbox/ring/pir-modular-int32.h:316-325 | one pass keeps the Bezout relations of both cofactor pairs and the magnitude invariant that bounds them |
| PirModular.HXGCD | linbox-1.5.2/linbox/ring/pir-modular-int32.h:336-377 | throws exactly for INT32_MIN; otherwise d = gcd(\|a\|, \|b\|) and s*a = d modulo b, with \|s\| <= max(\|b\|, 1) |
| PirModular.HxgcdLoop | linbox-1.5.2/linbox/ring/pir-modular-int32.h:358-371 | the loop ends with the gcd and a cofactor congruent to it modulo b |
| PirModular.MakePIR | linbox-1.5.2/linbox/ring/pir-modular-int32.h:100-106 | the constructor caches (2^32 mod p)^2 mod p, whose intermediate square fits in 64 bits |
| PirModular.DefaultPIR | linbox-1.5.2/linbox/ring/pir-modular-int32.h:92-98 | the default ring has modulus 65521 |
| PirModular.RingGcd | linbox-1.5.2/linbox/ring/pir-modular-int32.h:111-118 | `gcd` on ring elements is a non-negative common divisor of both representatives that every common divisor divides, zero only when both are zero |
| PirModular.RingXgcd | linbox-1.5.2/linbox/ring/pir-modular-int32.h:120-133 | the cofactors end in [0, p], each congruent to XGCD's modulo p, and s*a + t*b = g modulo p |
| PirModular.ShiftBezout | linbox-1.5.2/linbox/ring/pir-modular-int32.h:125-129 | adding p once to a negative cofactor keeps the Bezout identity modulo p |
| PirModular.RingDxgcd | linbox-1.5.2/linbox/ring/pir-modular-int32.h:135-159 | g = 0 exactly when a = b = 0; otherwise a1*g = a and b1*g = b; s*a + t*b = g modulo p either way |
| PirModular.IsDivisor | linbox-1.5.2/linbox/ring/pir-modular-int32.h:161-177 | false for a = 0, true for b = 0, otherwise true exactly when gcd(a, p) divides b |
| PirModular.IsDivisorIsRingDivisibility | linbox-1.5.2/linbox/ring/pir-modular-int32.h:161-177 | for a != 0, `isDivisor(a, b)` holds exactly when some c has a*c = b in Z/pZ |
| PirModular.Multiplier | linbox-1.5.2/linbox/ring/pir-modular-int32.h:184-196 | when gcd(a, p) divides b a ring element c with a*c = b exists |
| PirModular.IsUnit | linbox-1.5.2/linbox/ring/pir-modular-int32.h:245-259 | `isUnit(a)` holds exactly when gcd(a, p) = 1 |
| PirModular.IsUnitIsInvertible | linbox-1.5.2/linbox/ring/pir-modular-int32.h:245-259 | an element is a unit exactly when it has an inverse modulo p |
| PirModular.Div | linbox-1.5.2/linbox/ring/pir-modular-int32.h:179-201 | throws "Div: not dividable" exactly when gcd(b, p) does not divide a; otherwise the quotient d is a ring element with d*b = a modulo p |
| PirModular.Normal | linbox-1.5.2/linbox/ring/pir-modular-int32.h:203-212 | 0 exactly for 0; otherwise a positive common divisor of b and p that every common divisor divides, i.e. gcd(b, p) |
| PirModular.NormalIsAssociate | linbox-1.5.2/linbox/ring/pir-modular-int32.h:203-212 | b and normal(b) divide each other in Z/pZ, so they generate the same ideal |
| PirModular.MulAcc | linbox-1.5.2/linbox/ring/pir-modular-int32.h:404-411 | the accumulator stays a uint64 and congruent modulo p to its old value plus a*x, across the wrap-around |
| PirModular.Wrapped | linbox-1.5.2/linbox/ring/pir-modular-int32.h:407-408 | after an unsigned wrap, adding 2^64 mod p restores the residue and cannot wrap again |
| PirModular.AxpyGet | linbox-1.5.2/linbox/ring/pir-modular-int32.h:421-424 | `get` returns an element of [0, p) |
| PirModular.AccumulateIsDotModP | linbox-1.5.2/linbox/ring/pir-modular-int32.h:404-433 | after `reset` and a sequence of `mulacc`, `get` is the dot product modulo p, whatever wrap-arounds happened |
| PirModular.DotSpecializedDD | linbox-1.5.2/linbox/ring/pir-modular-int32.h:455-475 | the dense dot product is an element of [0, p) equal to the true dot product modulo p |
| TextbookSmith.SwapRowsExchanges | linbox-1.5.2/linbox/algorithms/smith-form-textbook.h:49-61 | `TextbookSmith.SwapRows`: `swapRows(A, n, a, b)` exchanges rows a and b in columns n and beyond, touches nothing else, and undoes itself |
| TextbookSmith.SwapColsExchanges | linbox-1.5.2/linbox/algorithms/smith-form-textbook.h:63-75 | `TextbookSmith.SwapCols`: `swapCols(A, n, a, b)` exchanges columns a and b in rows n and beyond, touches nothing else, and undoes itself |
| TextbookSmith.FirstNonzero | linbox-1.5.2/linbox/algorithms/smith-form-textbook.h:95-115 | the scan finds no pivot exactly when the trailing block is zero; a pivot it finds is non-zero, in the block, and preceded in row-major order only by zeros |
| TextbookSmith.FindPivot | linbox-1.5.2/linbox/algorithms/smith-form-textbook.h:93-116 | reports true exactly when the trailing block from (n, n) has a non-zero entry, which then sits at (n, n); rows and columns before n are untouched; on false A is unchanged |
| TextbookSmith.FindPivotFirst | linbox-1.5.2/linbox/algorithms/smith-form-textbook.h:95-110 | the entry moved to (n, n) is the first non-zero one of the trailing block in row-major order |
| TextbookSmith.FindPivotElements | linbox-1.5.2/linbox/algorithms/smith-form-textbook.h:104-108 | the swaps only move entries, so the matrix still holds ring elements |
| TextbookSmith.Dxgcd | linbox-1.5.2/linbox/algorithms/smith-form-textbook.h:77-91 | for a == b the cofactors are exactly s = u = v = 1, t = 0; always a*v = b*u; otherwise s*a + t*b is gcd(a, b) modulo p |
| TextbookSmith.CombineRowsAt | linbox-1.5.2/linbox/algorithms/smith-form-textbook.h:136-154 | from column k on, row n becomes s*row n + t*row i and row i becomes v*row n - u*row i, both from the old values |
| TextbookSmith.CombineRowsPivot | linbox-1.5.2/linbox/algorithms/smith-form-textbook.h:126-154 | one combination clears (i, n) and leaves a non-zero pivot at (n, n) |
| TextbookSmith.ColStep | linbox-1.5.2/linbox/algorithms/smith-form-textbook.h:129-155 | one step zeroes (i, n), keeps (n, n) non-zero, changes only rows n and i, and never the part before n |
| TextbookSmith.EliminateCol | linbox-1.5.2/linbox/algorithms/smith-form-textbook.h:118-159 | the result holds ring elements and leaves rows and columns before n untouched |
| TextbookSmith.CombineColsAt | linbox-1.5.2/linbox/algorithms/smith-form-textbook.h:179-197 | from row k on, column n becomes s*column n + t*column i and column i becomes v*column n - u*column i |
| TextbookSmith.CombineColsPivot | linbox-1.5.2/linbox/algorithms/smith-form-textbook.h:169-197 | one combination clears (n, i) and leaves a non-zero pivot at (n, n) |
| TextbookSmith.CombineColsTransposed | linbox-1.5.2/linbox/algorithms/smith-form-textbook.h:118-202 | the column combination of `eliminateRow` is the row combination of `eliminateCol` on the transpose |
| TextbookSmith.RowStep | linbox-1.5.2/linbox/algorithms/smith-form-textbook.h:172-198 | one step zeroes (n, i), keeps (n, n) non-zero and changes only columns n and i |
| TextbookSmith.EliminateRow | linbox-1.5.2/linbox/algorithms/smith-form-textbook.h:161-202 | the result holds ring elements and leaves rows and columns before n untouched |
| TextbookSmith.FixFrom | linbox-1.5.2/linbox/algorithms/smith-form-textbook.h:210-234 | only entries right below the diagonal change, each either kept or set to the next diagonal entry |
| TextbookSmith.FixDiagonal | linbox-1.5.2/linbox/algorithms/smith-form-textbook.h:204-235 | the diagonal is kept, every entry off the subdiagonal is kept, and a subdiagonal entry (k + 1, k) either stays or becomes d_(k+1) |
| TextbookSolve.EliminateColClears | linbox-1.5.2/linbox/algorithms/smith-form-textbook.h:118-159 | `eliminateCol` reports a change exactly when column n had a non-zero entry below the pivot, changes nothing otherwise, leaves that part of column n zero and keeps a non-zero pivot non-zero |
| TextbookSolve.EliminateRowClears | linbox-1.5.2/linbox/algorithms/smith-form-textbook.h:161-202 | `eliminateRow` reports a change exactly when row n had a non-zero entry right of the pivot, changes nothing otherwise, leaves that part of row n zero and keeps a non-zero pivot non-zero |
| TextbookSolve.FixFromReports | linbox-1.5.2/linbox/algorithms/smith-form-textbook.h:210-234 | the loop reports true exactly when `fixed` was set or some d_k before the first zero d_(l) is unfit for d_(k+1); false means nothing changed |
| TextbookSolve.FixDiagonalReports | linbox-1.5.2/linbox/algorithms/smith-form-textbook.h:204-235 | `fixDiagonal` reports true exactly when some d_k before the first zero among d_1, d_2, ... has gcd(d_k, d_(k+1)) not associate to d_k; it writes only below the diagonal and changes nothing on false |
| TextbookSolve.Sweep | linbox-1.5.2/linbox/algorithms/smith-form-textbook.h:249-253 | a completed pass leaves the matrix diagonal with its zeros last; a matrix that is already zero is returned unchanged |
| TextbookSolve.Solve | linbox-1.5.2/linbox/algorithms/smith-form-textbook.h:238-264 | when the loop finishes, the working matrix is diagonal with zeros last, S holds its diagonal in the first dim places and keeps its other entries, and every non-zero s_(k+1) has gcd(s_k, s_(k+1)) associate to s_k |
| Companion.FromPolynomial | linbox-1.5.2/linbox/blackbox/companion.h:45-58 | built with `setEntry` as written, the CSR matrix is (\|P\| - 1) square with no stored zero, and every entry is the companion entry: one right below the diagonal, neg(P[i]) in the last column, zero elsewhere |
| Companion.SetEntryAsWrittenIsUpdate | linbox-1.5.2/linbox/matrix/sparsematrix/sparse-csr-matrix.h:656-703 | `setEntry` as written changes only entry (i, j), to e, when e is non-zero or row i stores no column above an absent j |
| Companion.OnesSet | linbox-1.5.2/linbox/blackbox/companion.h:51-52 | after the first loop's i-th `setEntry` as written (row i is still empty, so a zero `one` erases nothing), the ones stand at (k, k - 1) for every k <= i |
| Companion.LastSet | linbox-1.5.2/linbox/blackbox/companion.h:53-57 | after the second loop's i-th `setEntry` as written (no column lies above n - 1, so a zero coefficient erases nothing), rows 0..i hold neg(P[k]) in the last column and the ones stay |
| Companion.Zero | linbox-1.5.2/linbox/blackbox/companion.h:60-63 | the field-only constructor gives the empty 0 x 0 CSR matrix |
| RecIntSub.WordSub | givaro-4.0.4/src/kernel/recint/rmsub.h:132-135 | word subtraction borrows the word size: the result is x - y modulo W and below W |
| RecIntSub.WordAdd | givaro-4.0.4/src/kernel/recint/rmsub.h:133-144 | word addition drops the carry: the result is x + y modulo W and below W |
| RecIntSub.Sub | givaro-4.0.4/src/kernel/recint/rmsub.h:128-138 | on reduced operands a = b - c modulo p and a stays reduced: the word wrap never shows |
| RecIntSub.SubInPlace | givaro-4.0.4/src/kernel/recint/rmsub.h:140-149 | on reduced operands a - b modulo p, reduced |
| RecIntSub.SubInPlaceIsSub | givaro-4.0.4/src/kernel/recint/rmsub.h:128-149 | the two-operand and three-operand forms compute the same residue |
| RecIntSub.SubAddRoundTrip | givaro-4.0.4/src/kernel/recint/rmsub.h:128-138 | adding c back to b - c gives b modulo p |
| RecIntSub.Minus | givaro-4.0.4/src/kernel/recint/rmsub.h:101-106 | `b - c` returns a reduced a with a + c = b modulo p, leaving b and c as they were |
| RecIntSub.Convert | givaro-4.0.4/src/kernel/recint/rmsub.h:154 | the converted constant is reduced and congruent to the constant modulo p |
| RecIntSub.SubConst | givaro-4.0.4/src/kernel/recint/rmsub.h:151-156 | subtracting an arithmetic constant gives b - c modulo p, reduced |
| RecIntSub.PreDecrement | givaro-4.0.4/src/kernel/recint/rmsub.h:76-81 | `--a` gives a - 1, or p - 1 when a is 0 |
| RecIntSub.PostDecrement | givaro-4.0.4/src/kernel/recint/rmsub.h:83-88 | `a--` returns a as it was and leaves a decremented as `--a` would |
| RecIntSub.PreDecrementInverts | givaro-4.0.4/src/kernel/recint/rmsub.h:76-81 | decrementing a + 1 modulo p gives a back |
| GivRandomGen.FromSeed | givaro-4.0.4/src/kernel/system/givrandom.h:41-47 | a non-zero seed is kept as given |
| GivRandomGen.ToInt64 | givaro-4.0.4/src/kernel/system/givrandom.h:77 | the `int64_t` cast is congruent to its argument modulo 2^64 and in the signed range |
| GivRandomGen.ToUint64 | givaro-4.0.4/src/kernel/system/givrandom.h:75 | the `uint64_t` cast is congruent to its argument modulo 2^64 and below 2^64 |
| GivRandomGen.WrapInt64 | givaro-4.0.4/src/kernel/system/givrandom.h:76-77 | the wrapped product is in the signed range and equals the product when that fits |
| GivRandomGen.NextInRange | givaro-4.0.4/src/kernel/system/givrandom.h:73-79 | `GivRandomGen.Next`: from a seed below 2^31 - 1 the step is 950706376 * seed mod (2^31 - 1), again below the modulus |
| GivRandomGen.LargeSeedExceedsModulo | givaro-4.0.4/src/kernel/system/givrandom.h:73-79 | from seed 2^34 the signed product wraps, C's `%` keeps its sign and the value returned, 18446744072725268032, exceeds `max_rand()` |
| GivRandomGen.MaxRand | givaro-4.0.4/src/kernel/system/givrandom.h:65-68 | `max_rand()` is 2147483647 |
| GivRandomGen.Call | givaro-4.0.4/src/kernel/system/givrandom.h:73-79 | the value returned is the new seed; from a seed below the modulus it is below `max_rand()` and is A * seed mod (2^31 - 1) |
| GivRandomGen.CallInto | givaro-4.0.4/src/kernel/system/givrandom.h:90-93 | `operator()(x)` stores the cast of one `operator()()` and advances the generator exactly once |
| GivRandomGen.Copy | givaro-4.0.4/src/kernel/system/givrandom.h:49-57 | the copy has the same seed |
| GivRandomGen.SeedAfterClosedForm | givaro-4.0.4/src/kernel/system/givrandom.h:73-79 | from a seed below the modulus, the seed after k calls is A^k * seed mod (2^31 - 1) |
| GivRandomGen.Draw | givaro-4.0.4/src/kernel/system/givrandom.h:73-79 | k calls return A^(i+1) * seed mod (2^31 - 1) in turn, each below the modulus, and leave the last one as seed |
| GivRandomGen.DrawCopy | givaro-4.0.4/src/kernel/system/givrandom.h:49-79 | a copy draws the same sequence as its original |
| SmsFormat.ToSmsLines | sms.py:3-7 | `SmsFormat.ToSms` (`tosms`): the text has the header "rows cols M", one line per triple with 1-based indices, and "0 0 0", each ending in a newline |
| SmsFormat.ParseIntToString | sms.py:6 | a value printed with %d reads back as that value |
| SmsFormat.FromToSms | sms.py:3-7 | `SmsFormat.ToSms` (`tosms`): reading the text back yields the shape and every triple in order: nothing is lost |
| Sl4Bracket.Ind | sl4_rk.py:36-40 | ind(x) = [a, b] with n*a + b = x, b between 0 and n (floor division, Python's sign of %) |
| Sl4Bracket.IindInd | sl4_rk.py:36-47 | `Sl4Bracket.Iind` (`iind`): iind undoes ind for every x |
| Sl4Bracket.IndIind | sl4_rk.py:36-47 | ind undoes iind on pairs whose second index is below n |
| Sl4Bracket.IndInRange | sl4_rk.py:36-40 | an index below n^2 names two indices below n |
| Sl4Bracket.SentinelDistinct | sl4_rk.py:42-47 | iind(0) is -1, the index of no pair of non-negative indices |
| Sl4Bracket.LB | sl4_rk.py:50-66 | the first term is present exactly when a[0] = E[1], the second exactly when a[1] = E[0] |
| Sl4Bracket.LBIsCommutator | sl4_rk.py:50-66 | LB's first term minus its second is the commutator of the two matrix units, entry by entry |
| Sl4Bracket.LBD | sl4_rk.py:81-89 | four terms for a diagonal a, two otherwise, starting with LB's |
| Sl4Bracket.LBDIsCommutator | sl4_rk.py:81-89 | LBD's terms summed with signs + - + - give the commutator of E with the basis element of a |
| Sl4Bracket.Replace | sl4_rk.py:94-98 | both writes run exactly when k and k + 1 are valid Python indices; the list keeps its length and holds v at them |
| Sl4Bracket.ReplaceRestores | sl4_rk.py:94-98 | writing back the old values restores the list |
| Sl4Projection.CombShape | sl4_rk.py:18-21 | every listed combination is an increasing y-subset of range(x) |
| Sl4Projection.CombComplete | sl4_rk.py:18-21 | every y-subset is listed |
| Sl4Projection.CombDistinct | sl4_rk.py:18-19 | no combination is listed twice, so the dictionaries are bijective |
| Sl4Projection.CombCount | sl4_rk.py:12-17 | there are nCr(x, y) combinations, the count used for the shape |
| Sl4Projection.LastIndex | sl4_rk.py:18-19 | the dictionary lookup returns an index holding the key, or reports a missing key |
| Sl4Projection.InsertCombo | sl4_rk.py:24-27 | sorted(S + (j,)) is a (y + 1)-subset, holds S and j, and j stands at the number of elements of S below it |
| Sl4Projection.ProjectionMatrix | sl4_rk.py:16-29 | fails exactly when y >= x (the factorial of a negative); otherwise the matrix is the wedge matrix |
| Sl4Projection.WedgeColumn | sl4_rk.py:16-29 | column (S, j) is zero when j is in S; otherwise its only non-zero entry is (-1)^k in the row of S with j added, k the elements of S below j |

## Left out

- Input and output: matrix streams, `read`/`write`, the `rank` program's `main`, `linbox_rank`'s subprocess in sms.py, and the top level of sl4_rk.py (`input()`, numpy and scipy calls).
- Progress and debug output: the `commentator()` calls and the `LINBOX_pp_gauss_steps_OUT`/`LINBOX_PRANK_OUT` printing in `gauss_rankin`.
- The COO `_triples` cursor shortcut in `getEntry` (it compares with the stored triple's own row) and the CSR/COO `Helper` transposed copy: both are caches, so COO `getEntry` is a pure lookup here. The CSR shortcut is not a faithful cache and is modelled, see Findings.
- The matrix iterators, and CSR/COO `apply`/`applyTranspose`: they are not part of the elimination or the storage invariants.
- COO `clean` (sparse-coo-matrix.h:710-723): not modelled; the CSR `clean` is.
- sparse-coo-implicit-matrix.h is not part of this model: its `_data` is a single element but is used as a vector.
- The `unary` `CherchePivot` overload (smith-form-sparseelim-local.h:175-187) is not used by `gauss_rankin`'s prime-power path and is not modelled.
- Overflow of `headcoeff * value` in `FaireElimination` and of the int32 products inside `XGCD`/`HXGCD`: values are unbounded integers with range requirements.
- `gcdin`, `normalIn`, `divin`, `dotSpecializedDSP` and the field's `assign`/`init` in pir-modular-int32.h: in-place or sparse variants of the modelled operations.
- The ring's `areAssociates` used by `fixDiagonal` is a parameter of the textbook model, not Givaro's code.
- TextbookSolve.Solve: the `do ... while (fixDiagonal(B))` and `while (eliminateRow && eliminateCol)` loops have no bound in the source; each here runs for at most a `fuel` number of rounds, and a run out of fuel reports `OutOfFuel` instead of diverging.
- TextbookSolve.Solve: that the result is Smith-equivalent to A (same module up to unimodular transforms) is not proved; the contract states the diagonal shape, zeros last and the divisibility chain.
- PowerGaussRank.GaussRankin: the last rank is proved to be the number of pivots found and to bound the echelon form, not to be the rank of A modulo FMOD. It requires at least one row, because the source's `unsigned long last = Ni-1` (smith-form-sparseelim-local.h:428) wraps for an empty matrix.
- PowerGaussPivot.CherchePivot: column densities are unbounded integers, while the source's `col_density` is a `std::vector<size_t>` (smith-form-sparseelim-local.h:403, 558). A decrement below zero, as in `DensityFollowsRelabelledRow`, gives -1 here and SIZE_MAX there, but the source compares densities only through `(long)` casts (smith-form-sparseelim-local.h:205, 208), so the comparisons agree. That the ranks do not depend on the pivot choice is not proved.
- PirModular.Div: Givaro's `mulin` is not part of this model; it is taken as multiplication reduced into [0, p), also when the HXGCD cofactor s is negative.
- CsrOps.MaxRow: requires `start` to have two entries and `MaxRowIsLongest` requires at least one row, while the source reads `_start[1]` unguarded; on a 0-row matrix that read is out of range and its value is not modelled.
- TextbookSmith.FixDiagonal: requires min(rows, cols) >= 1, because the source's `dim - 1` in `size_t` wraps for an empty matrix.
- CooConvert.TransposeEntries: entry-wise correctness of the COO `transpose` is stated for strictly row-major ordered input; for any input only consistency and sorted row indices are proved.
- CooMatrix.NextTriple: its own contract states only that the cursor stays at or above its reset value -1; the storage-order enumeration is stated in `CooMatrix.EnumerateAll`.
- LocalSmith.LocalSmithForm: the invariant factors are proved from the ranks (`FactorsAreSmithForm`); that the ranks are those of A modulo p^i is not proved.
- RecIntSub.Sub: the arguments are distinct objects. The source takes references, and `sub(a, a, c)` with a < c overwrites b through a before adding it back, computing 2(p - c) modulo the word size (p = 7, a = 1, c = 5 gives 4, not 3); that aliased call is not modelled.
- RecIntSub.Convert: the `rmint(T)` conversion of an arithmetic constant is taken as its residue for non-negative constants; the conversion code, `neg` and `operator-(T, rmint)` are not part of this model.
- GivRandomGen.Call: the value is proved below `max_rand()` only for seeds below 2^31 - 1; `LargeSeedExceedsModulo` shows a larger seed breaking that bound.
- The timer-seeded `GivRandom(0)`: `BaseTimer` is a clock, so a generator starts from a given non-zero seed.
- Signed 64-bit overflow in `GivRandom::operator()` is undefined in C++; it is modelled as two's-complement wrap.
- Companion.FromPolynomial: the field is taken as its `one` and a `neg` function; the source computes `P.size() - 1` in `size_t`, so an empty polynomial is excluded. The random `Companion(F, n, r)` and `Companion(F, n)` constructors are left out because they draw from a `RandIter`.
- SmsFormat: `scipy.sparse.find` is taken as its output, a list of (row, column, value) triples with integer values; `%d` applied to a float value truncates, which is not modelled.
- Sl4Projection.CombCount: `nCr` uses float division; the model counts combinations exactly with a binomial on naturals.
- Sl4Bracket.Ind: `np.floor(x/n)` on a float is modelled as exact floor division.
- `LBT` and `TL` in sl4_rk.py: through `replace`'s aliasing every stored term is the same list object; Python aliasing is not modelled.

## Findings

| source | as written | input that shows it | evidently intended | confidence | as-written member | corrected member |
|---|---|---|---|---|---|---|
| linbox-1.5.2/linbox/matrix/sparsematrix/sparse-csr-matrix.h:785-796 | `clearEntry(i, j)` erases the entry at `lower_bound(j)` in row i without checking that its column is j | a 1 x 2 matrix storing only (0, 1); `clearEntry(0, 0)` erases (0, 1) | erase only when the found column equals j, and otherwise leave the matrix unchanged | not executed | CsrMatrix.ClearEntryAsWrittenErasesNeighbour | CsrMatrix.ClearEntryClears |
| linbox-1.5.2/linbox/matrix/sparsematrix/sparse-coo-matrix.h:691-702 | COO `clearEntry(i, j)` erases the triple at `lower_bound(j)` within row i's range without checking its column | a matrix storing only (0, 1) = 5; `clearEntry(0, 0)` erases it | erase only a triple whose column is j | not executed | CooMatrix.ClearEntryAsWrittenErasesNeighbour | CooMatrix.ClearEntryClears |
| linbox-1.5.2/linbox/matrix/sparsematrix/sparse-csr-matrix.h:664-666 | `setEntry(i, j, 0)` calls the unchecked `clearEntry(i, j)` | a 1 x 2 matrix storing only (0, 1) = 5; `setEntry(0, 0, 0)` erases (0, 1) | writing a zero clears only (i, j) | not executed | CsrMatrix.SetEntryAsWrittenErasesNeighbour | CsrMatrix.SetEntryUpdates |
| linbox-1.5.2/linbox/matrix/sparsematrix/sparse-coo-matrix.h:571-573 | COO `setEntry(i, j, 0)` calls the unchecked `clearEntry(i, j)` | a matrix storing only (0, 1) = 5; `setEntry(0, 0, 0)` erases it | writing a zero clears only (i, j) | not executed | CooMatrix.SetEntryAsWrittenErasesNeighbour | CooMatrix.SetEntryUpdates |
| linbox-1.5.2/linbox/matrix/sparsematrix/sparse-csr-matrix.h:569-573 | `getEntry` trusts the `_triples` cursor's row, which `setEntry` and `clearEntry` never reset | on the empty 2 x 3 matrix: `setEntry(1, 0, 5)`, `getEntry(1, 0)`, `setEntry(0, 1, 7)`, `setEntry(0, 2, 9)`; then `getEntry(1, 2)` returns 9 instead of 0 | reset the cursor when the storage changes, or answer by the row search alone | not executed | CsrOps.GetEntryAsWrittenStaleCursor | CsrMatrix.GetEntryReadsRow |
| linbox-1.5.2/linbox/matrix/sparsematrix/sparse-csr-matrix.h:803-817 | `clean` decrements `_start[k]` for k from the storage position i + 1 rather than from the entry's row + 1, and never decrements `_nbnz` | a 2 x 2 matrix storing 5 at (0, 0), 0 at (0, 1) and 7 at (1, 0): start becomes [0, 2, 2], so the 7 moves into row 0, and nbnz stays 3 for 2 entries | shift `_start` after the zero's row and lower `_nbnz` with each erased zero | not executed | CsrOps.CleanAsWrittenExample | CsrOps.CleanKeepsEntries |
