# Multishift QR sweep and org2r, modelled in Dafny

This project models two in-place dense-matrix routines of the `<T>LAPACK`
C++ library, in the real case and over exact arithmetic (`real`, with
`conj` as the identity):

- `multishift_QR_sweep` runs one multishift implicit-QR sweep on an upper
  Hessenberg matrix `A`. A train of `n_shifts / 2` bulges is introduced at the
  top of the active window `[ilo, ihi)`. The train is chased down the
  diagonal in blocks and then removed at the bottom.
  - Each block resets the accumulator `U2` to the identity.
  - It applies 3-element reflectors to narrow row and column strips of `A`,
    with the left update delayed.
  - It folds every reflector into `U2`.
  - It then applies `U2` to the rest of `A` and to `Z` with `gemm` and `lacpy`.

  The model covers the integer bookkeeping: bulge positions, active-bulge
  ranges, block widths and update ranges. It gives the exact reflector
  arithmetic on `array2<real>`, and states frames saying which entries each
  step may change. The kernels `larfg`, `lahqr_shiftcolumn` and `move_bulge`
  are parameters (`Reflector.Kernels`). `laset`, `gemm` and `lacpy` are
  modelled exactly (`DenseBlas`).
- `org2r` overwrites the column-major `m x n` array `A` (leading dimension
  `lda`) with the first `n` columns of `Q = H_0 H_1 ... H_{k-1}`. The
  reflector vectors come from the first `k` columns of `A`. Both overloads
  are modelled: `tau` of the matrix type, where `larf` is handed `work + i`,
  and real `tau`, where it is handed `work`. So is the allocating wrapper.
  The model proves three things:
  - Every column of the result is the matching column of `Q`, which is
    defined independently in `HouseholderProduct`.
  - The padding rows between `m` and `lda` are never written.
  - Invalid arguments are rejected before anything is written.

  `HouseholderProduct` also proves that `Q` has orthonormal columns when every
  `tau`/`v` pair is an orthogonal reflector.

Modules and files:

| file | module | contents |
|---|---|---|
| reflector.dfy | `Reflector` | order-3 and order-2 reflectors; involution and orthogonality; the abstract kernels |
| reflector_steps.dfy | `ReflectorSteps` | in-place left and right reflector applications on strips |
| dense_blas.dfy | `DenseBlas` | `laset`, `gemm`, `lacpy` and the horizontal and vertical multiplies by `U2` |
| bulge_schedule.dfy | `BulgeSchedule` | sizes, positions, block widths and ranges of the sweep, with their lemmas |
| qr_sweep_steps.dfy | `SweepSteps` | seeding, moving, reflecting near the diagonal, delayed update, accumulation, order-2 boundary step |
| qr_sweep.dfy | `MultishiftSweep` | the bulk update, the three phases and the whole sweep |
| householder_product.dfy | `HouseholderProduct` | `H = I - t v v^T`, the product `Q` and its orthonormal columns |
| org2r.dfy | `Org2r` | column-major storage, `larf`/`scal` over exact reals, the main loop and both overloads, and the loop-guard finding |

Sizes in `org2r` are the unsigned 64-bit size type (`Org2r.Size`, with
`size_t(-1)` as `SIZE_MAX`). The sweep's sizes are `nat`. The preconditions
of `BulgeSchedule.ValidSweep` keep every unsigned subtraction of the sweep
from wrapping: an even `n_shifts >= 2` and `ilo + 2*n_shifts <= ihi <= n`.
They also make the horizontal-multiply slice at line 191 well formed, even
though its guard at line 189 is weaker than the slice.

## Model

| member | source | states |
|---|---|---|
| Reflector.Reflect3ZeroTau | include/lapack/multishift_QR_sweep.hpp:113-128 | a reflector with tau == 0 leaves its three entries unchanged |
| Reflector.Reflect3AlongW | include/lapack/multishift_QR_sweep.hpp:113-128 | the three-term update changes x only along w = [1, v1, v2], by -t (w^T x) |
| Reflector.Reflect3FlipsW | include/lapack/multishift_QR_sweep.hpp:113-128 | a genuine Householder reflector negates the component along w: w^T (H x) == -(w^T x) |
| Reflector.Reflect3Involution | include/lapack/multishift_QR_sweep.hpp:113-128 | applying a Householder reflector twice gives back x |
| Reflector.Reflect3Orthogonal | include/lapack/multishift_QR_sweep.hpp:113-128 | a Householder reflector preserves the squared length of x |
| Reflector.Reflect2Involution | include/lapack/multishift_QR_sweep.hpp:377-401 | the order-2 reflector of the boundary step is its own inverse |
| Reflector.Reflect2Orthogonal | include/lapack/multishift_QR_sweep.hpp:377-401 | the order-2 reflector preserves squared length |
| ReflectorSteps.ApplyRight3 | include/lapack/multishift_QR_sweep.hpp:115-121 | every row in [r0, r1) of columns c..c+2 becomes H times its old value; no other entry changes |
| ReflectorSteps.ApplyLeft3 | include/lapack/multishift_QR_sweep.hpp:155-160 | every column in [c0, c1) of rows r..r+2 becomes H times its old value; no other entry changes |
| ReflectorSteps.ApplyRight2 | include/lapack/multishift_QR_sweep.hpp:381-386 | the order-2 right application on rows [r0, r1) of columns c, c+1, exactly; nothing else changes |
| ReflectorSteps.ApplyLeft2 | include/lapack/multishift_QR_sweep.hpp:388-393 | the order-2 left application on rows r, r+1 of columns [c0, c1), exactly; nothing else changes |
| DenseBlas.SetIdentity | include/lapack/multishift_QR_sweep.hpp:86-87 | the leading nb x nb block of U becomes the identity; the rest of U is unchanged |
| DenseBlas.GemmTransLeft | include/lapack/multishift_QR_sweep.hpp:193 | W(i, j) is the dot product of column i of U2 with column j of the A slice |
| DenseBlas.GemmRight | include/lapack/multishift_QR_sweep.hpp:201 | W(i, j) is row i of the slice times column j of U2 |
| DenseBlas.CopyBack | include/lapack/multishift_QR_sweep.hpp:194 | the slice of M becomes W; entries outside the slice are unchanged |
| DenseBlas.MultiplyFromLeft | include/lapack/multishift_QR_sweep.hpp:189-195 | the row block becomes U2^T times its old value; nothing else in A and nothing in U changes |
| DenseBlas.MultiplyFromRight | include/lapack/multishift_QR_sweep.hpp:197-211 | the column block becomes its old value times U2; nothing else in M and nothing in U changes |
| BulgeSchedule.NumBulges | include/lapack/multishift_QR_sweep.hpp:52 | n_bulges is n_shifts / 2 rounded down: 2r <= n_shifts < 2r + 2 |
| BulgeSchedule.WorkspaceSizes | include/lapack/multishift_QR_sweep.hpp:57-71 | for the introduction, every chase block and the removal block: the block is n_shifts to n_block_desired wide and ends by ihi (so U2 fits U and the horizontal slice starts inside the update range); the horizontal slice needs at most the n_block_desired*n cells of WH, and the vertical and Z slices at most the n*n_block_desired cells of WV, the buffer both views share |
| BulgeSchedule.ActiveBulges | include/lapack/multishift_QR_sweep.hpp:92 | the active count is at most n_bulges, every active bulge is at row ilo or below, and the first inactive one would be above ilo |
| BulgeSchedule.IntroPositions | include/lapack/multishift_QR_sweep.hpp:89-111 | active bulges lie in [ilo, i_pos_last] and step down by 2; a bulge sits exactly at ilo iff i_pos_last - ilo is even and below 2*n_bulges, and it is then the last active one |
| BulgeSchedule.AllBulgesSeededIff | include/lapack/multishift_QR_sweep.hpp:89-104 | with the loop bound as written, every bulge is seeded during introduction iff ilo < n_shifts |
| BulgeSchedule.HandOffSeamless | include/lapack/multishift_QR_sweep.hpp:213-236 | for ilo == 0 the chase's first i_pos_last is one past the last introduction step, and every bulge was seeded |
| BulgeSchedule.LiteralHandOffAboveIlo | include/lapack/multishift_QR_sweep.hpp:213 | with the hand-off cursor as written (n_block - n_shifts, without ilo), the first chase block's top row i_pos_block - 1 lies above ilo exactly when n_shifts <= ilo |
| BulgeSchedule.HandOffSeamlessFromIlo | include/lapack/multishift_QR_sweep.hpp:81-89 | with the introduction bound ilo + n_block - 2 and the hand-off cursor ilo + n_block - n_shifts, for every ilo: every bulge is seeded, the chase's first i_pos_last is one past the last introduction step, the first chase block's top row lies below ilo, the hand-off cursor plus n_shifts is the end of the introduction block, and for ilo == 0 both bounds are the written ones |
| BulgeSchedule.IntroUColumns | include/lapack/multishift_QR_sweep.hpp:164-175 | the U2 columns i_pos - ilo .. i_pos - ilo + 2 of every introduction step (i_pos_last from ilo up to ilo + n_block - 2) are within [0, n_block) |
| BulgeSchedule.ChaseBlockFull | include/lapack/multishift_QR_sweep.hpp:219-225 | inside the chase loop n_pos == n_shifts, n_block == n_block_desired, and the block ends before ihi |
| BulgeSchedule.ChaseEndBounds | include/lapack/multishift_QR_sweep.hpp:219-343 | the chase ends with the cursor not behind its start, the loop guard false, and n_shifts rows still left above ihi |
| BulgeSchedule.ChaseUColumns | include/lapack/multishift_QR_sweep.hpp:294-305 | every chase bulge's rows and U2 columns lie inside the block [i_pos_block, i_pos_block + n_block) |
| BulgeSchedule.RemoveStartSelects | include/lapack/multishift_QR_sweep.hpp:364 | i_bulge_start selects exactly the bulges with i_pos <= ihi - 2, and it never decreases as i_pos_last grows |
| BulgeSchedule.DelayedStartSelects | include/lapack/multishift_QR_sweep.hpp:432 | the delayed start selects exactly the bulges with i_pos + 3 <= ihi; it is the removal start or one past it, and skips exactly the bulge at ihi - 2 |
| BulgeSchedule.BulgeHitsBoundaryOnce | include/lapack/multishift_QR_sweep.hpp:362-368 | each bulge reaches i_pos == ihi - 2 at exactly one step of the removal loop |
| BulgeSchedule.RemoveUColumns | include/lapack/multishift_QR_sweep.hpp:362-401 | every processed removal bulge lies in [i_pos_block, ihi - 2], and its U2 columns are below n_block = ihi - i_pos_block |
| BulgeSchedule.UpdateRange | include/lapack/multishift_QR_sweep.hpp:178-187 | want_t gives [0, n), otherwise [ilo, ihi); the range always contains [ilo, ihi) |
| SweepSteps.SeedBulge | include/lapack/multishift_QR_sweep.hpp:99-104 | column b of V becomes [tau, v1, v2] from larfg of the shift column of the leading 3x3 block; other columns of V are unchanged |
| SweepSteps.MoveBulge | include/lapack/multishift_QR_sweep.hpp:108-111 | the 4x3 window and column b of V become move_bulge's result; nothing else in A or V changes |
| SweepSteps.ReflectNearDiagonal | include/lapack/multishift_QR_sweep.hpp:113-128 | rows [row_start, i_pos) of columns i_pos..i_pos+2 get the right reflection; rows i_pos..i_pos+2 get it in columns i_pos+1, i_pos+2, and in column i_pos they get the left reflection of the right-reflected column; nothing outside rows [row_start, i_pos+3) x columns [i_pos, i_pos+3) changes |
| SweepSteps.DelayedLeftUpdate | include/lapack/multishift_QR_sweep.hpp:150-161 | the delayed left updates of bulges [b_start, b_end) stay inside the block square |
| SweepSteps.AccumulateReflectors | include/lapack/multishift_QR_sweep.hpp:163-175 | the accumulation changes only the leading n_block x n_block block of U |
| SweepSteps.BoundaryReflector | include/lapack/multishift_QR_sweep.hpp:370-401 | A(i_pos+1, i_pos-1) becomes 0 and A(i_pos, i_pos-1), V(0, b), V(1, b) are larfg's results; rows [i_pos_block, i_pos) of columns i_pos, i_pos+1 get the order-2 right reflection, the 2x2 diagonal block gets the right and then the left reflection, and U's columns i_pos - i_pos_block and the next get the right reflection; nothing else in A, U or V changes |
| MultishiftSweep.BulkUpdate | include/lapack/multishift_QR_sweep.hpp:177-211 | the right-of-block rows become U2^T times themselves when the guard holds; the above-block columns and (with want_z) Z's block columns become themselves times U2; nothing else changes |
| MultishiftSweep.IntroStep | include/lapack/multishift_QR_sweep.hpp:91-131 | one introduction step changes only the square [ilo, i_pos_last + 3) of A |
| MultishiftSweep.ChaseStep | include/lapack/multishift_QR_sweep.hpp:238-261 | one chase step changes only the square [i_pos_block - 1, i_pos_last + 3) of A |
| MultishiftSweep.RemoveStep | include/lapack/multishift_QR_sweep.hpp:362-430 | one removal step changes only the square [i_pos_block - 1, ihi) of A and the leading block of U |
| MultishiftSweep.IntroduceBulges | include/lapack/multishift_QR_sweep.hpp:79-214 | the introduction loop runs i_pos_last from ilo while below ilo + n_block - 2, and the hand-off cursor is ilo + n_block - n_shifts (both corrected, see Findings); A changes only in the block, its row strip and its column strip; Z changes only in the block's columns and only with want_z |
| MultishiftSweep.ChaseBlock | include/lapack/multishift_QR_sweep.hpp:221-343 | the cursor advances by n_shifts; A changes only in the block and its strips; Z changes only in the block's columns with want_z |
| MultishiftSweep.ChaseBulges | include/lapack/multishift_QR_sweep.hpp:219-344 | the chase stops at ChaseEnd of the hand-off cursor `first`, never before it, with the guard false and the whole train still above ihi; rows at and below ihi never change, nor columns left of first - 1; without want_t neither do columns at and past ihi, nor rows above both ilo and first - 1; Z changes only with want_z and only in columns [first, ihi) |
| MultishiftSweep.RemoveBulges | include/lapack/multishift_QR_sweep.hpp:349-516 | A changes only in the last block [i_pos_block, ihi) and its strips; Z changes only in columns [i_pos_block, ihi) with want_z |
| MultishiftSweep.MultishiftQRSweep | include/lapack/multishift_QR_sweep.hpp:31-517 | for every ilo: rows at and below ihi and columns left of ilo never change; without want_t nothing outside the window [ilo, ihi) x [ilo, ihi) changes; Z changes only with want_z, and only in columns [ilo, ihi) |
| HouseholderProduct.ApplyHToOwnUnit | include/lapack/org2r.hpp:67-73 | H_i e_i is 1 - t at row i, zero above it, and -t times the stored vector below it |
| HouseholderProduct.ApplyHFixesUnitAbove | include/lapack/org2r.hpp:53-58 | a reflector whose vector starts below row c leaves e_c unchanged |
| HouseholderProduct.ApplyHPreservesDot | include/lapack/org2r.hpp:134-146 | an orthogonal reflector preserves dot products |
| HouseholderProduct.DotAfterApplyH | include/lapack/org2r.hpp:62-65 | v^T (H x) == v^T x - t (v^T x)(v^T v) |
| HouseholderProduct.ApplyHInvolution | include/lapack/org2r.hpp:134-146 | an orthogonal reflector is its own inverse |
| HouseholderProduct.ProdFixesUnit | include/lapack/org2r.hpp:53-58 | reflectors H_j with j > c leave e_c unchanged, so the unit columns set up for c >= k are the columns of Q there |
| HouseholderProduct.ProdSplit | include/lapack/org2r.hpp:60-74 | the product H_lo ... H_hi-1 splits at any midpoint; this is what lets the descending loop build Q from the right |
| HouseholderProduct.QColumnFromLeadingReflectors | include/lapack/org2r.hpp:60-74 | column c of Q only involves H_0 .. H_c (or all k of them when c >= k) |
| HouseholderProduct.ProdPreservesDot | include/lapack/org2r.hpp:134-146 | a product of orthogonal reflectors preserves dot products |
| HouseholderProduct.QColumnsOrthonormal | include/lapack/org2r.hpp:79-81 | when every tau_j, v_j is an orthogonal reflector, the columns of Q are orthonormal |
| Org2r.Dec | include/lapack/org2r.hpp:60 | --i on size_t is subtraction of 1 modulo 2^64: Dec(i) + 1 wraps back to i, so 0 goes to size_t(-1) |
| Org2r.AsWrittenVisitsNothing | include/lapack/org2r.hpp:60 | with the guard i > size_t(-1) on unsigned size_t, the main loop visits no index for any k |
| Org2r.CorrectedVisitsCountdown | include/lapack/org2r.hpp:60 | with the guard i != size_t(-1), the loop visits k-1 down to 0, each exactly once, and nothing for k == 0 |
| Org2r.OneReflectorSkipped | include/lapack/org2r.hpp:60 | for k == 1 the as-written loop skips column 0, which the corrected loop processes |
| Org2r.SignedVisitsCountdown | include/lapack/org2r.hpp:115 | if the counter were a signed 64-bit integer, the guard as written would visit k-1 down to 0, the same order as the corrected guard |
| Org2r.ColumnMajorInjective | include/lapack/org2r.hpp:38 | with lda >= m, distinct (i, j) with i < m map to distinct cells i + j*lda |
| Org2r.IdxDecode | include/lapack/org2r.hpp:38 | the cell i + j*lda with i < lda gives back i as its remainder and j as its quotient |
| Org2r.FitsIffExtent | include/lapack/org2r.hpp:48 | every cell of the m x n matrix is inside the array iff the matrix is empty or its last cell, (m-1) + (n-1)*lda, is |
| Org2r.SetCell | include/lapack/org2r.hpp:64 | writing A(r, c) changes entry r of column c only, and no padding cell |
| Org2r.ZeroColumn | include/lapack/org2r.hpp:72-73 | rows [lo, hi) of column c become 0; everything else is unchanged |
| Org2r.ScaleColumn | include/lapack/org2r.hpp:67-68 | scal: rows lo.. m-1 of column c are multiplied by alpha; everything else is unchanged |
| Org2r.AxpyColumn | include/lapack/org2r.hpp:65 | the rank-1 step of larf on one column: rows i.. of column c gain temp times the reflector vector |
| Org2r.AxpyIsReflection | include/lapack/org2r.hpp:65 | the rank-1 update x + (-t v^T x) v, applied from row i down, is H x for v the column's tail from row i |
| Org2r.ReflectColumn | include/lapack/org2r.hpp:65 | given d = v^T A(:, c), column c becomes H times its old value; every other column and the padding are unchanged |
| Org2r.ColumnDot | include/lapack/org2r.hpp:65 | the sum larf's gemv forms over rows i .. m-1 is v^T A(:, c) for v the tail of column i from row i; A is only read |
| Org2r.LarfProducts | include/lapack/org2r.hpp:65 | larf's work entries are the products v^T A(:, c) for every trailing column c; work outside its n-i-1 entries is untouched |
| Org2r.LarfUpdate | include/lapack/org2r.hpp:65 | given those products, every trailing column becomes H times its old value; columns up to i and the padding are unchanged |
| Org2r.Larf | include/lapack/org2r.hpp:63-66 | larf from the left: every column right of i becomes H_i times its old value; columns <= i are unchanged; only work[off .. off + n-i-1) is used |
| Org2r.InitUnitColumns | include/lapack/org2r.hpp:53-58 | columns [k, n) become e_k .. e_{n-1}; columns < k and the padding are unchanged |
| Org2r.ReflectTrailing | include/lapack/org2r.hpp:62-66 | the trailing columns become H_i times their old values; column i changes at most in its diagonal entry |
| Org2r.FinishColumn | include/lapack/org2r.hpp:67-73 | column i becomes 0 above the diagonal, 1 - tau[i] on it and -tau[i] times its old entries below it; other columns are unchanged |
| Org2r.FinishedColumnIsReflectedUnit | include/lapack/org2r.hpp:67-73 | the column the iteration leaves is exactly H_i e_i |
| Org2r.Org2rStep | include/lapack/org2r.hpp:60-74 | iteration i: column i becomes H_i e_i, every column right of i becomes H_i times its old value, and columns left of i are unchanged |
| Org2r.ApplyReflectors | include/lapack/org2r.hpp:60-74 | after the loop column c holds H_0 ... H_min(c, k-1) e_c; the padding is unchanged |
| Org2r.Org2rCore | include/lapack/org2r.hpp:44-74 | ok iff n <= m, k <= n and lda >= m; on error or n == 0 A is unchanged; otherwise every column c < n is column c of Q = H_0 ... H_{k-1} |
| Org2r.Org2r | include/lapack/org2r.hpp:31-77 | the overload with tau of the matrix type (larf handed work + i) has the same result |
| Org2r.Org2rRealTau | include/lapack/org2r.hpp:86-132 | the overload with real tau (larf handed work) has the same result |
| Org2r.Org2rAllocating | include/lapack/org2r.hpp:153-162 | allocates work of n - 1 entries (0 when n == 0) and delegates; same result, with no work vector needed from the caller |

## Left out

- Floating-point behaviour is not modelled: `uroundoff`/`eps`, orthogonality and similarity "to within c*eps", and convergence and deflation. Scalars are exact `real`.
- Complex scalars and the template constraints are not modelled. Only the real case is, where `conj` is the identity.
- The kernels `larfg`, `lahqr_shiftcolumn` and `move_bulge` are not part of this model. They are function parameters (`Reflector.Kernels`) that return as many entries as they are given. Facts that depend on their numerical results are therefore not proved, for example that the chase really preserves the Hessenberg shape outside the bulges.
- The commented-out column-oriented delayed-update loops (multishift_QR_sweep.hpp lines 136-148, 266-278 and 437-450) are not code and are not modelled.
- `WH` and `WV` are separate arrays in the model. In the source they alias one buffer, which is safe because they are never live at the same time. `BulgeSchedule.WorkspaceSizes` shows that every slice either view is given fits the n_block_desired*n cells of that buffer; the aliasing itself is not modelled. `unique_ptr` allocation and `new`/`delete[]` are not modelled.
- MultishiftSweep.MultishiftQRSweep: the sweep's parameters are restricted by `ValidSweep` (even `n_shifts >= 2`, `ilo + 2*n_shifts <= ihi <= n`). The wrapping behaviour of the unsigned subtractions at lines 219 and 223 for smaller `ihi`, and an odd number of shifts, are not modelled.
- MultishiftSweep.MultishiftQRSweep: its contract states the frame of the whole sweep on both sides of the window, for every `ilo` that `ValidSweep` allows: rows at and below `ihi` and columns left of `ilo` never change, and without `want_t` nothing outside `[ilo, ihi) x [ilo, ihi)` does. It does not state that the result is similar to `A` or still Hessenberg; those depend on the abstract kernels. The lower side holds because the introduction uses the ilo-offset bounds of the Findings table; with the bounds as written it fails once `n_shifts <= ilo`.
- MultishiftSweep.ChaseBulges: like the whole sweep, it states frames (both sides, relative to the hand-off cursor and `ilo`), not similarity or the Hessenberg shape.
- SweepSteps.DelayedLeftUpdate and SweepSteps.AccumulateReflectors state only their frames. The exact per-bulge values are stated by the `ReflectorSteps` methods they call.
- Org2r.Larf: lines 65 and 120 pass the element `A(i,i+1)` itself as larf's matrix argument, which names no matrix; the model reads it as the trailing block starting at that element (`&A(i,i+1)`). With the `m-i` rows and `n-i-1` columns the same calls pass, that block is `A(i:m-1, i+1:n-1)`; column `i` is the reflector vector, not part of the updated block, although the comment at line 62 names `A(i:m-1, i:n-1)`.
- Error reporting in `org2r` (`blas_error_if`, which throws) is modelled as a `false` result with `A` unchanged. The checks `m < 0`, `n < 0` and `k < 0` cannot fail for sizes.
- The org2r overload with real `tau` and the allocating wrapper are modelled for real `A`, where both overloads coincide apart from the `work` offset. The note on passing `tau` itself as `work` (org2r.hpp lines 22-26) is not modelled: `tau` is a value, and the arrays `A` and `work` are required to be distinct.
- `HouseholderProduct.QColumnsOrthonormal` assumes each `tau_j, v_j` is an orthogonal reflector (`t == 0` or `t * v^T v == 2`). This is what `geqrf` produces in exact arithmetic, and `geqrf` is not part of this model.

## Findings

| source | as written | input that shows it | evidently intended | confidence | as-written member | corrected member |
|---|---|---|---|---|---|---|
| include/lapack/org2r.hpp:60 (and 115) | the main loop's guard is `i > size_t(-1)`; for an unsigned `size_t` nothing exceeds `size_t(-1)`, so the loop body never runs and the first k columns keep the raw reflector data | m = n = k = 1, A = [a], tau = [2]: the loop runs no iteration, so A(0,0) stays a instead of becoming 1 - 2 = -1 | run i = k-1 down to 0 and stop after 0 wraps, `i != size_t(-1)`; this is also what the written guard does if `size_t` is a signed 64-bit type (Org2r.SignedVisitsCountdown) | not executed; medium: the loop is dead exactly when the `size_t` named at org2r.hpp:60 and 115 is unsigned, and org2r.hpp does not declare that type itself | Org2r.AsWrittenVisitsNothing | Org2r.ApplyReflectors |
| include/lapack/multishift_QR_sweep.hpp:89 (and 213) | the introduction loop runs `i_pos_last` from `ilo` while `i_pos_last < n_block - 2`, and the hand-off sets `i_pos_block = n_block - n_shifts`; neither bound adds `ilo`, although the block is `A(ilo:ilo+n_block, ilo:ilo+n_block)` (lines 81 and 85) | n_shifts = 2, ilo = 2 (so n_block = 4): the loop starts at i_pos_last = 2, which is not below 2, so the only bulge is never seeded; i_pos_block = 2, so the first chase block starts at row 1, above ilo | bound `ilo + n_block - 2` and hand-off `ilo + n_block - n_shifts`, which coincide with the written ones when ilo == 0 | not executed; medium: the sweep itself only asks ilo + 2*n_shifts <= ihi, so ilo >= n_shifts is admissible; whether its callers pass such an ilo is not part of this model | BulgeSchedule.AllBulgesSeededIff, BulgeSchedule.LiteralHandOffAboveIlo | BulgeSchedule.HandOffSeamlessFromIlo (used by MultishiftSweep.IntroduceBulges) |
