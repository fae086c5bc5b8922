# ffge-avx512 in Dafny

A model of the rank kernels of ffge-avx512. These kernels run
fraction-free (Bareiss) Gaussian elimination in place on square matrices of
64-bit integers stored row-major in a flat buffer. The model covers:

- the pivot search `ffge_pivot_find`;
- the exact kernel `ffge`;
- the prime-field kernel `ffge_prim`, which reduces every update modulo
  FFGE_PRIM = 2^31 - 1 with C's truncating `%`;
- the per-lane pivot search `ffge_pivot_find_i8` of the packed kernel, which
  works on FFGE_WIDTH = 8 interleaved matrices and clears a matrix's
  full-rank flag when its column has no pivot;
- the index layouts of the header;
- the test-matrix generator `ffge_mat_genrand_prim`.

The kernels work in place, so they are methods over `array<int>`, each
proved against a pure specification:

- The pure function `Ffge.Eliminate` walks the columns exactly as the C
  loops do. It returns the final buffer and the pivot count.
- `Ffge.Ffge` and `Ffge.FfgePrim` are proved to compute it.
- About `Eliminate` it is proved that:
  - the count lies in [0, n] and rises at most once per column;
  - the final buffer is in row echelon form, with exactly as many nonzero
    rows as the returned count;
  - when the prime-field kernel's entries start in (-P, P), they stay
    there.
- For the prime-field kernel, the update loops `Ffge.EliminateColumn`
  prove at each store that the two products and their difference fit in a
  signed 64-bit integer. They get this from the invariant that every entry
  stays in (-P, P).
- The generator `GenRand.GenRandPrim` keeps every entry in (-P, P) as a
  loop invariant, from the starting matrix through every round. Its row
  and column additions `Matrix.AddRow` and `Matrix.AddCol` require residues
  and a sign of ±1, and prove at each store that the sum fits in a signed
  64-bit integer.

The pivot searches are specified by `Ffge.PivotMoved` and
`PackedPivot.FlagsAfter`. The generator is specified by
`GenRand.Generated`, a function of the stream of random draws.

The modules are:

| module | file | contents |
|---|---|---|
| `CArith` | c_arith.dfy | C's truncating `/` and `%` (section 6.5.5 of ISO/IEC 9899:2011) and the 64-bit ranges |
| `Header` | header.dfy | FFGE_PRIM, FFGE_WIDTH, the flag word and `~(1 << k)`, the full-rank status |
| `Layout` | layout.dfy | the offsets `i*n + j` and `(i*n + j)*FFGE_WIDTH + k` |
| `Matrix` | matrix.dfy | entries of a flat buffer; row and column exchanges and modular additions, with their loops |
| `Ffge` | ffge.dfy | the scalar pivot search and both kernels |
| `PackedPivot` | packed.dfy | `ffge_pivot_find_i8` |
| `GenRand` | genrand.dfy | `ffge_mat_genrand_prim` |

The header and the code disagree about the scalar kernels' signatures, and
the model follows the code:

- ffge.h:41 and ffge.h:58 declare `int f(m, n, size_t *rnk)`, returning a
  0/1 full-rank status and storing the rank through `rnk`.
- ffge.c:44 and ffge.c:68 take two arguments and return the rank.
- `Ffge.Ffge` and `Ffge.FfgePrim` model ffge.c. `Ffge.FfgeStatus` and
  `Ffge.FfgePrimStatus` add the header's status on top.

The prime-field kernel has no divisor. The shared walk `Eliminate` passes
it a constant 1 that its updates never read.

## Model

| member | source | states |
|---|---|---|
| CArith.CRemSpec | ffge.c:56-57 | C's quotient times the divisor plus C's remainder gives back the dividend. The remainder is smaller than the divisor in magnitude and has the dividend's sign. |
| CArith.CRemCongruent | ffge.c:79-81 | `x % FFGE_PRIM` in C lies strictly between -P and P and is congruent to x modulo P. |
| Header.LaneFlagsFitByte | ffge.h:73-78 | Masking a flag word with 0xff keeps exactly the flags of the 8 matrices of a batch, so the flags fit in a `uint8_t`. |
| Header.ClearMaskBits | ffge_prim_i8_helpers.c:40 | The `int` `~(1 << k)` converted to `uint64_t` has every bit set except bit k. Its sign bit fills the upper 32 bits. |
| Header.ClearFlag | ffge_prim_i8_helpers.c:40 | `fl &= ~(1 << k)` clears bit k and keeps all other 63 bits. |
| Header.FullRankStatus | ffge.h:38-39 | The status is 0 or 1, and it is 1 exactly when the rank equals n. |
| Layout.IdxFormula | ffge.h:28-33 | The offset of entry (i, j) is `i*n + j`. |
| Layout.IdxInRange | ffge.h:28-33 | For i, j < n the offset lies in [0, n*n). |
| Layout.IdxDivMod | ffge.h:28-33 | Dividing the offset by n gives back the row i, and the remainder gives the column j. |
| Layout.IdxInjective | ffge.h:28-33 | Distinct entries have distinct offsets. |
| Layout.IdxCoords | ffge.h:28-33 | Every offset p below n*n is the offset of entry (p / n, p % n), and both lie below n. |
| Layout.PackedIdxInRange | ffge.h:63-67 | The packed offset `(i*n + j)*8 + k` lies in [0, 8*n*n). |
| Layout.PackedLane | ffge.h:63-67 | Modulo 8, a packed offset is congruent to its matrix index k. Its quotient by 8 is the row-major offset. |
| Layout.PackedIdxInjective | ffge.h:63-67 | The packed offset is injective in (i, j, k). |
| Layout.PackedCoords | ffge.h:63-67 | Every packed offset p below 8*n*n is the packed offset of entry (q / n, q % n) of matrix p % 8, where q = p / 8 < n*n. |
| Matrix.SwapRowSegmentCells | ffge.c:32-39 | After rows r1 and r2 exchange columns c0 .. c1-1, entry (a, b) comes from the row RowSwapSource names. Only those two rows in those columns move. |
| Matrix.SwapRowSegmentNoop | ffge.c:32 | Exchanging a row with itself, or over no columns, changes nothing. |
| Matrix.SwapRowSegmentTwice | utils.c:42-50 | Exchanging the same two rows twice gives back the buffer. |
| Matrix.SwapRows | ffge.c:33-39 | The exchange loop, shared with utils.c:45-50, leaves the buffer SwapRowSegment specifies. |
| Matrix.SwapColSegmentCells | utils.c:52-60 | After columns c1 and c2 exchange rows r0 .. r1-1, entry (a, b) comes from the column ColSwapSource names. Nothing else moves. |
| Matrix.SwapColSegmentNoop | utils.c:54 | Exchanging a column with itself, or over no rows, changes nothing. |
| Matrix.SwapColSegmentTwice | utils.c:52-60 | Exchanging the same two columns twice gives back the buffer. |
| Matrix.SwapCols | utils.c:55-60 | The column exchange loop leaves the buffer SwapColSegment specifies. |
| Matrix.AddRowPrefixCells | utils.c:62-67 | Only row r1 changes. Its entry j becomes `(m[r1][j] + sign*m[r2][j]) % P` with C's `%`. |
| Matrix.AddRowPrefixEmpty | utils.c:65 | Before its first column the row addition has changed nothing. |
| Matrix.AddRowOperands | utils.c:66-67 | Column j's two operands still hold their values from before the loop. When the input holds residues, both operands are residues. |
| Matrix.AddRow | utils.c:64-67 | The row addition loop leaves the buffer AddRowPrefix specifies over all n columns. Requires residues and a sign of ±1; every sum `m[r1][j] + ss[0]*m[r2][j]` it forms fits in `int64_t`. |
| Matrix.AddColPrefixCells | utils.c:69-74 | Only column c1 changes. Its entry i becomes `(m[i][c1] + sign*m[i][c2]) % P` with C's `%`. |
| Matrix.AddColPrefixEmpty | utils.c:72 | Before its first row the column addition has changed nothing. |
| Matrix.AddColOperands | utils.c:73-74 | Row i's two operands still hold their values from before the loop. When the input holds residues, both operands are residues. |
| Matrix.AddCol | utils.c:71-74 | The column addition loop leaves the buffer AddColPrefix specifies over all n rows. Requires residues and a sign of ±1; every sum `m[i][c1] + ss[1]*m[i][c2]` it forms fits in `int64_t`. |
| Matrix.AddModInRange | utils.c:66-67 | Adding ±1 times a residue to a residue fits in 64 bits. The C remainder of the sum is a residue congruent to it modulo P. |
| Ffge.FirstNonzeroRow | ffge.c:26-28 | The scan stops at a row i in [pr, n]. Every entry of column pc in rows pr .. i-1 is zero, and when i < n, entry (i, pc) is nonzero. |
| Ffge.PivotLands | ffge.c:26-39 | When column pc has a nonzero entry at or below row pr, the search leaves the first one at (pr, pc). |
| Ffge.PivotMovedCells | ffge.c:30-39 | With a pivot in row i, rows pr and i trade their entries in columns pc .. n-1 and nothing else moves. Without a pivot nothing changes. |
| Ffge.PivotFind | ffge.c:24-42 | Returns -1 or 0. It returns -1 exactly when every entry of column pc from row pr down is zero, and then the buffer is unchanged. On 0 the first nonzero entry is at (pr, pc), and the buffer is PivotMoved. |
| Ffge.EliminateBelowCells | ffge.c:53-60 | After the update loops of the pivot at (pr, pc): rows 0 .. pr and columns left of pc keep their values, the pivot column is cleared below the pivot, and every other entry (i, j) becomes `(m_ij*m_rc - m_pj*m_ic) / dv` with C's truncating `/` for `ffge` (ffge.c:57), or `(m_ij*m_rc - m_pj*m_ic) % FFGE_PRIM` with C's `%` for `ffge_prim` (ffge.c:80-81). m_rc is the pivot, m_pj is in the pivot row, and m_ic is in the pivot column. All four are read before the step. |
| Ffge.EliminateBelowFrame | ffge.c:53-60 | Every entry below the pivot is 0. Rows 0 .. pr and the columns left of the pivot are not written. |
| Ffge.EliminatedUpToEnds | ffge.c:53-60 | Before the first row the update loops have changed nothing. After the last row the buffer is EliminateBelow. |
| Ffge.EliminatedUpToInner | ffge.c:55-57 | The inner store of `Update` finishes entry (i, j): `(m_ij*m_rc - m_pj*m_ic) / dv` for `ffge`, or `% FFGE_PRIM` for `ffge_prim`, with C's truncating operators. The entries it reads still hold their values from before the pivot step. |
| Ffge.EliminatedUpToRowStart | ffge.c:53-54 | When row i's inner loop begins, its pivot-column entry `m_ic` still holds its value from before the update loops, so the multiplier read at the row's start is the original one. |
| Ffge.EliminatedUpToRow | ffge.c:59 | Clearing the pivot-column entry of row i finishes that row. |
| Ffge.EliminateColumn | ffge.c:52-60 | The update loops of both kernels leave the buffer EliminateBelow specifies. For `ffge_prim` on residues, each store's `m_ij*m_rc`, `m_pj*m_ic` and their difference fit in `int64_t`. |
| Ffge.ModularUpdateInRange | ffge.c:78-81 | With all four operands in (-P, P), `m_ij*m_rc` and `m_pj*m_ic` and their difference fit in `int64_t`, and the reduced value lies in (-P, P). |
| Ffge.ProductBound | ffge.c:80 | The product of two values in (-P, P) lies in (-P*P, P*P). |
| Ffge.EliminateBelowNoOverflow | ffge.c:76-84 | On a buffer of residues, every product and difference of the prime-field update loops fits in `int64_t`. |
| Ffge.EliminateBelowResidues | ffge.c:76-84 | The prime-field update loops keep every entry in (-P, P). |
| Ffge.PivotMovedResidues | ffge.c:72 | The pivot search keeps every entry in (-P, P). |
| Ffge.Eliminate | ffge.c:48-63 | From column pc with pr pivots found, the count the walk returns lies in [pr, pr + (n - pc)]. It rises at most once per column. |
| Ffge.EliminateSkip | ffge.c:49-50 | A column without a pivot leaves the count, the divisor and the buffer the search left. |
| Ffge.EliminatePivot | ffge.c:52-62 | In a column with a pivot, the pivot at (pr, pc) is nonzero. The walk runs the update loops on the searched buffer and counts the pivot. It moves on with NextDivisor: the pivot for `ffge`, and the unchanged divisor for `ffge_prim`. |
| Ffge.ColumnStep | ffge.c:48-63 | The walk from column pc equals the walk from column pc + 1 after one column. The divisor stays nonzero and the count is at most pc + 1. |
| Ffge.FfgeSpec | ffge.c:44-66 | The rank `ffge` returns is at most n, so it is 0 when n is 0. |
| Ffge.FfgePrimSpec | ffge.c:68-89 | The rank `ffge_prim` returns is at most n. |
| Ffge.Column | ffge.c:49-62 | Without a pivot in column pc from row pr down, one pass leaves the buffer with the (empty) exchange applied and keeps pr and the divisor. With one, it leaves EliminateBelow of the exchanged buffer, advances pr to pr + 1 and makes the divisor `m_rc` (the prime-field kernel keeps its divisor). Either way the walk is preserved with a nonzero divisor, and for the prime-field kernel every entry stays in (-P, P). |
| Ffge.Ffge | ffge.c:44-66 | Returns the count and leaves the buffer that FfgeSpec specifies. The count is at most n. |
| Ffge.FfgePrim | ffge.c:68-89 | Returns the count and leaves the buffer that FfgePrimSpec specifies. The count is at most n, and every entry stays in (-P, P). |
| Ffge.FfgeStatus | ffge.h:35-41 | The header's form of `ffge`: stores the rank and returns 1 exactly when it equals n, otherwise 0. |
| Ffge.FfgePrimStatus | ffge.h:51-58 | The header's form of `ffge_prim`: stores the rank and returns 1 exactly when it equals n, otherwise 0. |
| Ffge.EliminateResidues | ffge.c:68-89 | When every entry starts in (-P, P), every entry `ffge_prim` leaves is in (-P, P). |
| Ffge.EchelonNoPivot | ffge.c:49-50 | Skipping a column with no pivot at or below the current row extends the row echelon form by that column. |
| Ffge.EchelonPivotStep | ffge.c:52-62 | A pivot step extends the row echelon form by one column, with the pivot counted. |
| Ffge.EchelonColumn | ffge.c:48-63 | One column of the walk keeps the columns passed in row echelon form and preserves the walk. |
| Ffge.EliminateEchelon | ffge.c:48-65 | From columns already in row echelon form, the walk leaves a buffer in row echelon form. It has exactly as many pivot rows as the count it returns: each pivot row leads with a nonzero entry, further right than the row above, and every row below the pivots is zero. |
| Ffge.KernelsEchelon | ffge.c:44-89 | Both kernels leave their buffer in row echelon form, with exactly as many pivot rows as the returned count. |
| Ffge.EchelonRowsNonzero | ffge.c:65 | In that form, rows below the count are zero and rows above it are nonzero, so the count is the number of nonzero rows. |
| Ffge.OneByOne | t-ffge.c:35-42 | For both kernels, a 1-by-1 matrix has rank 0 when its entry is zero and rank 1 otherwise. The test matrices [0] and [1] are instances. |
| Ffge.TwoByTwo | t-ffge_prim.c:48-63 | For both kernels, [[0,0],[0,0]] has rank 0. [[0,1],[0,0]] has rank 1 and status 0. [[0,1],[1,0]] has rank 2 and status 1. |
| PackedPivot.Lane | ffge.h:63-67 | Entry p of matrix k is the value at packed offset p*8 + k. |
| PackedPivot.LaneAt | ffge.h:63-67 | Entry (i, j) of matrix k is the value at `(i*n + j)*8 + k`. |
| PackedPivot.LanesDetermine | ffge.h:63-67 | Two batches with the same 8 matrices are the same buffer. |
| PackedPivot.LaneWrite | ffge_prim_i8_helpers.c:46-48 | A store at a packed offset changes one entry of one matrix and no other. |
| PackedPivot.Singular | ffge_prim_i8_helpers.c:35-39 | Entry k is set exactly when every entry of matrix k's column pv, from row pv down, is zero: the case where the scan runs off the end. |
| PackedPivot.FlagsAfterBits | ffge_prim_i8_helpers.c:34-42 | After lanes 0 .. k-1, bit b is set exactly when it was set before and b is not a searched lane found singular. |
| PackedPivot.ReturnedFlags | ffge_prim_i8_helpers.c:39-52 | Flag k of the returned word is flag k of `fl` cleared exactly when matrix k is singular. Bits 8 .. 63 come back unchanged, so no bit is ever set. |
| PackedPivot.LanesSwappedStep | ffge_prim_i8_helpers.c:46-48 | One exchange of two entries of matrix k extends the row exchange by one column and leaves every other matrix alone. |
| PackedPivot.SwapLaneRows | ffge_prim_i8_helpers.c:43-49 | The exchange loop swaps rows pv and i of matrix k in columns pv .. n-1 and leaves the other matrices unchanged. |
| PackedPivot.LanesMovedStep | ffge_prim_i8_helpers.c:34-50 | Searching lane k after lanes 0 .. k-1 extends the search by one lane. |
| PackedPivot.SearchLane | ffge_prim_i8_helpers.c:35-49 | For lane k: reports matrix k singular exactly when its column has no pivot. Otherwise it does to matrix k what the scalar search does, and it leaves every other matrix unchanged. |
| PackedPivot.PivotFindPacked | ffge_prim_i8_helpers.c:32-53 | The returned word is `fl` with the flag of every singular matrix cleared. Each matrix ends up as the scalar search would leave it, and that depends on its own entries only. |
| PackedPivot.LaneOutcome | ffge_prim_i8_helpers.c:35-49 | A matrix whose flag survives has a nonzero entry at (pv, pv) after the search. A matrix found singular is left untouched. |
| PackedPivot.UnitSingular | ffge_prim_i8_helpers.c:35-39 | A batch of 1-by-1 matrices is singular exactly in its zero lanes. |
| PackedPivot.UnitBatch | ffge_prim_i8_helpers.c:35-42 | In a 1-by-1 batch searched from 0xff, exactly the lanes with a nonzero entry keep their flag. |
| PackedPivot.UnitFlags | t-ffge_prim_i8.c:37-48 | For the 1-by-1 batches of the test program, the search from 0xff returns 0xff, 0b11110111 and 0b10110111. |
| GenRand.Rng.Next | utils.c:38 | A draw returns the value at the generator's position and advances it by one. |
| GenRand.IdentityCells | utils.c:29-31 | In the starting matrix, entry (i, j) is 1 exactly when i == j and i < rnk, and 0 otherwise. |
| GenRand.IdentityResidues | utils.c:29-31 | Every entry of the starting matrix lies in (-P, P). |
| GenRand.SignOf | utils.c:40 | `(d % 2) * 2 - 1`, computed in `uint64_t` and stored in an `int`, is -1 or +1. It is +1 exactly for odd draws. |
| GenRand.RoundAt | utils.c:37-40 | A round's 8 indices are the draws reduced modulo n, so each is below n. Its 2 signs are ±1. |
| GenRand.SwapRowResidues | utils.c:42-50 | A row exchange keeps every entry in (-P, P). |
| GenRand.SwapColResidues | utils.c:52-60 | A column exchange keeps every entry in (-P, P). |
| GenRand.AddRowResidues | utils.c:62-67 | A row addition keeps every entry in (-P, P). |
| GenRand.AddColResidues | utils.c:69-74 | A column addition keeps every entry in (-P, P). |
| GenRand.RoundResidues | utils.c:42-74 | A round keeps every entry in (-P, P). |
| GenRand.RoundsResidues | utils.c:33-75 | Any number of rounds keeps every entry in (-P, P). |
| GenRand.GeneratedResidues | utils.c:26-76 | Every generated matrix, for any draws, has its entries in (-P, P), the input range of `ffge_prim`. |
| GenRand.DrawIndices | utils.c:37-38 | Takes 8 draws and reduces each modulo n. |
| GenRand.DrawSigns | utils.c:39-40 | Takes 2 draws and makes each a sign. |
| GenRand.DrawRound | utils.c:37-40 | Takes exactly 10 draws and returns the round RoundAt specifies. |
| GenRand.PlayRound | utils.c:42-74 | Runs the row exchange, the column exchange, the row addition and the column addition. Each is skipped when its two indices are equal. Requires residues, and every step before an addition keeps them, so the additions' requirements are met. |
| GenRand.NextRound | utils.c:33-74 | One pass of the round loop takes 10 draws and leaves the buffer as ApplyRound of the old buffer with the round drawn at the old position. So the rounds left after it are the rounds left before it, less the one it ran. Every entry stays in (-P, P). |
| GenRand.FillIdentity | utils.c:29-31 | The initial loops leave ones on the first rnk diagonal entries and zeros elsewhere. |
| GenRand.GenRandPrim | utils.c:26-76 | Takes exactly 10*rd draws and leaves the matrix Generated specifies: the starting matrix after rd rounds. Every entry is in (-P, P) throughout the run and at its end. |

## Left out

- `ffge_prim_i8`, the packed kernel itself, and its 64-byte alignment requirement: its body is not part of this model. Only its pivot search helper and the packed layout are modelled.
- PackedPivot.UnitFlags: the test program checks the value of `ffge_prim_i8` on 1-by-1 batches. The lemma states the flags that one pivot search at column 0, started from 0xff, returns. That the kernel returns exactly these flags is not modelled, since its body is not part of this model.
- That the returned count equals the linear-algebraic rank of the input, and that the exact kernel's division is always exact (Sylvester's identity), are not proved. What is proved is that the buffer ends in row echelon form with exactly the returned number of nonzero rows.
- That the generator's matrix has rank `rnk` is not proved; only its entry range and the effect of each round are.
- Ffge.Ffge: its entries and products are mathematical integers. The 64-bit overflow the exact kernel can reach on large inputs is not modelled; the source has no guard against it.
- Ffge.FfgePrim: requires every entry in (-P, P), the elements of Z_p the header speaks of. Inputs outside that range can overflow in the C code and are not modelled.
- Ffge.FfgeStatus and Ffge.FfgePrimStatus: ffge.h:35-36 and ffge.h:51-52 allow a null `rnk`, in which case the rank is not stored. The wrappers always return the rank, so the null case is not modelled.
- The error status -1 that ffge.h:55-56 and ffge.h:85-87 promise has no code in ffge.c, so it is not modelled.
- `xoshiro256ss`: the generator's state and its jump functions are replaced by a given stream of 64-bit draws (`GenRand.Rng`). Seeding is the constructor.
- GenRand.GenRandPrim: requires n > 0 when rd > 0, because the indices are reduced modulo n and C's `%` by zero is undefined.
- GenRand.SignOf: C leaves the conversion of 2^64 - 1 to `int` to the implementation. It is modelled as the usual two's-complement truncation.
- The flag word is modelled as its 64 bits rather than as an integer. `&`, `~`, `1 << k` and the `int` to `uint64_t` conversion are defined bit by bit.
- Helper methods: the bodies of `ffge`, `ffge_prim`, `ffge_pivot_find_i8` and `ffge_mat_genrand_prim` are each one C function. Here their loops and passes are separate methods:
  - the exchange and update loops;
  - `Ffge.Column`;
  - `PackedPivot.SearchLane`;
  - the draw and round methods.

  They run in the same order and make the same stores.
- The benchmark and test drivers, `ffge_mat_print` and the test programs' random-rank checks are not part of this model. They do timing, printing and assertion I/O.
