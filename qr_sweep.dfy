/** One multishift QR sweep (multishift_QR_sweep): a train of
    n_shifts / 2 bulges is introduced at the top of the active window
    [ilo, ihi) of the Hessenberg matrix A, chased down the diagonal in
    blocks, and removed at the bottom. Each phase works on a small block
    near the diagonal while accumulating its reflectors in U2, and then
    applies U2 to the rest of A (and to Z) with matrix products. The
    reflector kernels (larfg, the shift column, move_bulge) are parameters;
    the reflector arithmetic and the products are exact. */
module MultishiftSweep {
  import opened Reflector
  import opened ReflectorSteps
  import opened DenseBlas
  import opened BulgeSchedule
  import opened SweepSteps

  /** The matrices of one sweep and its workspaces: A and Z are n x n,
      V is 3 x n_bulges, U is n_block_desired x n_block_desired, WH is
      n_block_desired x n and WV is n x n_block_desired, all distinct. */
  ghost predicate Workspace(A: array2<real>, Z: array2<real>, V: array2<real>, U: array2<real>,
                            WH: array2<real>, WV: array2<real>, nShifts: nat)
  {
    var n := A.Length1;
    && A.Length0 == n && Z.Length0 == n && Z.Length1 == n
    && V.Length0 == 3 && V.Length1 == NumBulges(nShifts)
    && U.Length0 == BlockDesired(nShifts) && U.Length1 == BlockDesired(nShifts)
    && WH.Length0 == BlockDesired(nShifts) && WH.Length1 == n
    && WV.Length0 == n && WV.Length1 == BlockDesired(nShifts)
    && A != Z && A != V && A != U && A != WH && A != WV
    && Z != V && Z != U && Z != WH && Z != WV
    && V != U && V != WH && V != WV
    && U != WH && U != WV && WH != WV
  }

  /** The entries of A one block of the sweep may change: the square
      [lo, b1)^2 near the diagonal, the rows [b0, b1) to the right of the
      block up to istop_m (horizontal multiply) and the columns [b0, b1)
      above the block from istart_m (vertical multiply). */
  predicate BlockCell(i: int, j: int, lo: int, b0: int, b1: int, istart: int, istop: int)
  {
    || InSquare(i, j, lo, b1)
    || (b0 <= i < b1 && b1 <= j < istop)
    || (istart <= i < b0 && b0 <= j < b1)
  }

  /** The bulk update that closes each block (lines 177-211, 307-341,
      481-515), with [istart_m, istop_m) = [0, n) when the full Schur form
      is wanted and [ilo, ihi) otherwise: the rows [b0, b1) to the right of
      the block become U2^T times themselves when the guard h_guard < istop_m
      holds; the columns [b0, b1) above the block become themselves times
      U2; and, when Z is wanted, the same columns of Z become Z times U2.
      Nothing else in A or Z changes. */
  method BulkUpdate(wantT: bool, wantZ: bool, ilo: nat, ihi: nat, A: array2<real>, Z: array2<real>,
                    V: array2<real>, U: array2<real>, WH: array2<real>, WV: array2<real>, nShifts: nat,
                    b0: nat, nBlock: nat, hGuard: nat)
    requires Workspace(A, Z, V, U, WH, WV, nShifts)
    requires ilo <= ihi <= A.Length1
    requires nBlock <= BlockDesired(nShifts) && b0 + nBlock <= ihi
    modifies A, Z, WH, WV
    ensures var istop := UpdateRange(wantT, A.Length1, ilo, ihi).1;
      forall i, j :: b0 <= i < b0 + nBlock && b0 + nBlock <= j < istop && hGuard < istop ==>
        A[i, j] == old(ColDot(U, i - b0, A, b0, j, nBlock))
    ensures var istart := UpdateRange(wantT, A.Length1, ilo, ihi).0;
      forall i, j :: istart <= i < b0 && b0 <= j < b0 + nBlock ==>
        A[i, j] == old(RowDot(A, i, b0, U, j - b0, nBlock))
    ensures var r := UpdateRange(wantT, A.Length1, ilo, ihi);
      forall i, j :: 0 <= i < A.Length0 && 0 <= j < A.Length1 && !BlockCell(i, j, b0 + nBlock, b0, b0 + nBlock, r.0, r.1) ==>
        A[i, j] == old(A[i, j])
    ensures forall i, j :: 0 <= i < Z.Length0 && b0 <= j < b0 + nBlock && wantZ ==>
      Z[i, j] == old(RowDot(Z, i, b0, U, j - b0, nBlock))
    ensures forall i, j :: 0 <= i < Z.Length0 && 0 <= j < Z.Length1 && !(wantZ && b0 <= j < b0 + nBlock) ==>
      Z[i, j] == old(Z[i, j])
  {
    var n := A.Length1;
    var b1 := b0 + nBlock;
    var istartM, istopM := if wantT then 0 else ilo, if wantT then n else ihi;
    assert (istartM, istopM) == UpdateRange(wantT, n, ilo, ihi);
    if hGuard < istopM {
      MultiplyFromLeft(U, nBlock, A, b0, b1, istopM, WH);
    }
    forall i, jj | istartM <= i < b0 && 0 <= jj < nBlock
      ensures RowDot(A, i, b0, U, jj, nBlock) == old(RowDot(A, i, b0, U, jj, nBlock))
    {
      // rows above b0 were left alone by the horizontal multiply
      var k := 0;
      while k < nBlock
        invariant k <= nBlock
        invariant RowDot(A, i, b0, U, jj, k) == old(RowDot(A, i, b0, U, jj, k))
      {
        k := k + 1;
      }
    }
    if istartM < b0 {
      MultiplyFromRight(A, istartM, b0, b0, U, nBlock, WV);
    }
    if wantZ {
      MultiplyFromRight(Z, 0, n, b0, U, nBlock, WV);
    }
  }

  /** The bulge moves of one introduction step (lines 91-131): each active
      bulge is seeded from the shift column if it sits at ilo and chased one
      row otherwise, and its reflector is applied near the diagonal. Only
      the square [ilo, i_pos_last + 3) of A changes. */
  method IntroStep(K: Kernels, A: array2<real>, s: seq<Shift>, V: array2<real>, ilo: nat, iPosLast: nat)
    requires K.Valid() && A != V
    requires ilo <= iPosLast && iPosLast + 3 <= A.Length0 && iPosLast + 3 <= A.Length1
    requires V.Length0 == 3 && V.Length1 == NumBulges(|s|)
    modifies A, V
    ensures forall i, j :: 0 <= i < A.Length0 && 0 <= j < A.Length1 && !InSquare(i, j, ilo, iPosLast + 3) ==> A[i, j] == old(A[i, j])
  {
    var nActive := ActiveBulges(ilo, iPosLast, NumBulges(|s|));
    var b := 0;
    while b < nActive
      invariant b <= nActive
      invariant forall i, j :: 0 <= i < A.Length0 && 0 <= j < A.Length1 && !InSquare(i, j, ilo, iPosLast + 3) ==> A[i, j] == old(A[i, j])
    {
      var iPos := iPosLast - 2 * b;
      assert iPos == BulgePos(iPosLast, b) >= ilo;
      if iPos == ilo {
        SeedBulge(K, A, V, b, ilo, s[2 * b], s[2 * b + 1]);
      } else {
        MoveBulge(K, A, V, b, iPos, s[2 * b], s[2 * b + 1]);
      }
      ReflectNearDiagonal(A, V, b, iPos, ilo);
      b := b + 1;
    }
  }

  /** The bulge moves of one chase step (lines 238-261): every bulge moves
      one row down and its reflector is applied near the diagonal, inside
      the square [i_pos_block - 1, i_pos_last + 3). */
  method ChaseStep(K: Kernels, A: array2<real>, s: seq<Shift>, V: array2<real>, iPosBlock: nat, iPosLast: nat)
    requires K.Valid() && A != V
    requires 1 <= iPosBlock && iPosBlock + 2 * (NumBulges(|s|) - 1) <= iPosLast
    requires iPosLast + 3 <= A.Length0 && iPosLast + 3 <= A.Length1
    requires V.Length0 == 3 && V.Length1 == NumBulges(|s|)
    modifies A, V
    ensures forall i, j :: 0 <= i < A.Length0 && 0 <= j < A.Length1 && !InSquare(i, j, iPosBlock - 1, iPosLast + 3) ==> A[i, j] == old(A[i, j])
  {
    var b := 0;
    while b < NumBulges(|s|)
      invariant b <= NumBulges(|s|)
      invariant forall i, j :: 0 <= i < A.Length0 && 0 <= j < A.Length1 && !InSquare(i, j, iPosBlock - 1, iPosLast + 3) ==> A[i, j] == old(A[i, j])
    {
      var iPos := iPosLast - 2 * b;
      MoveBulge(K, A, V, b, iPos, s[2 * b], s[2 * b + 1]);
      ReflectNearDiagonal(A, V, b, iPos, iPosBlock);
      b := b + 1;
    }
  }

  /** The bulge moves of one removal step (lines 362-430): bulges at or
      above ihi - 2 move on; the one at exactly ihi - 2 is reduced by the
      order-2 reflector (accumulated into U2 at once), the others are
      chased as usual. Only the square [i_pos_block - 1, ihi) of A and the
      leading n_block x n_block block of U change. */
  method RemoveStep(K: Kernels, A: array2<real>, s: seq<Shift>, V: array2<real>, U: array2<real>,
                    iPosBlock: nat, ihi: nat, iPosLast: nat)
    requires K.Valid() && A != V && A != U && U != V
    requires 1 <= iPosBlock && iPosBlock + 2 * (NumBulges(|s|) - 1) <= iPosLast
    requires iPosBlock + 2 <= ihi <= A.Length0 && ihi <= A.Length1
    requires ihi - iPosBlock <= U.Length0 && ihi - iPosBlock <= U.Length1
    requires V.Length0 == 3 && V.Length1 == NumBulges(|s|)
    modifies A, V, U
    ensures forall i, j :: 0 <= i < A.Length0 && 0 <= j < A.Length1 && !InSquare(i, j, iPosBlock - 1, ihi) ==> A[i, j] == old(A[i, j])
    ensures forall i, j :: 0 <= i < U.Length0 && 0 <= j < U.Length1 && !InSquare(i, j, 0, ihi - iPosBlock) ==> U[i, j] == old(U[i, j])
  {
    var b := RemoveStart(iPosLast, ihi);
    while b < NumBulges(|s|)
      invariant forall i, j :: 0 <= i < A.Length0 && 0 <= j < A.Length1 && !InSquare(i, j, iPosBlock - 1, ihi) ==> A[i, j] == old(A[i, j])
      invariant forall i, j :: 0 <= i < U.Length0 && 0 <= j < U.Length1 && !InSquare(i, j, 0, ihi - iPosBlock) ==> U[i, j] == old(U[i, j])
      decreases NumBulges(|s|) - b
    {
      RemoveStartSelects(iPosLast, ihi, b);
      var iPos := iPosLast - 2 * b;
      assert iPosBlock <= iPos <= ihi - 2;
      if iPos == ihi - 2 {
        BoundaryReflector(K, A, V, U, ihi - iPosBlock, b, iPos, iPosBlock, ihi);
      } else {
        MoveBulge(K, A, V, b, iPos, s[2 * b], s[2 * b + 1]);
        ReflectNearDiagonal(A, V, b, iPos, iPosBlock);
      }
      b := b + 1;
    }
  }

  /** Introduce the bulges (lines 79-214). The block is the leading
      n_block_desired rows and columns from ilo; the step loop runs for
      i_pos_last from ilo while i_pos_last < ilo + n_block - 2, and the
      block cursor handed to the chase is ilo + n_block - n_shifts. Lines 89
      and 213 leave out the ilo in both bounds; LiteralHandOffAboveIlo and
      AllBulgesSeededIff show what that does, HandOffSeamlessFromIlo that
      the bounds used here seed every bulge and hand over seamlessly. Only
      the entries of A the block may touch change, and only Z's block
      columns. */
  method IntroduceBulges(K: Kernels, wantT: bool, wantZ: bool, ilo: nat, ihi: nat, A: array2<real>,
                         s: seq<Shift>, Z: array2<real>, V: array2<real>, U: array2<real>,
                         WH: array2<real>, WV: array2<real>) returns (iPosBlock: nat)
    requires K.Valid() && Workspace(A, Z, V, U, WH, WV, |s|)
    requires ValidSweep(A.Length1, ilo, ihi, |s|)
    modifies A, Z, V, U, WH, WV
    ensures iPosBlock == HandOff(ilo, |s|)
    ensures var r := UpdateRange(wantT, A.Length1, ilo, ihi);
      forall i, j :: 0 <= i < A.Length0 && 0 <= j < A.Length1 && !BlockCell(i, j, ilo, ilo, ilo + BlockDesired(|s|), r.0, r.1) ==>
        A[i, j] == old(A[i, j])
    ensures forall i, j :: 0 <= i < Z.Length0 && 0 <= j < Z.Length1 && !(wantZ && ilo <= j < ilo + BlockDesired(|s|)) ==>
      Z[i, j] == old(Z[i, j])
  {
    var nShifts := |s|;
    var nBulges := NumBulges(nShifts);
    var nBlock := BlockDesired(nShifts);
    var istopM := ilo + nBlock;
    SetIdentity(U, nBlock);
    var iPosLast := ilo;
    while iPosLast < ilo + nBlock - 2
      invariant ilo <= iPosLast
      invariant forall i, j :: 0 <= i < A.Length0 && 0 <= j < A.Length1 && !InSquare(i, j, ilo, ilo + nBlock) ==> A[i, j] == old(A[i, j])
      invariant forall i, j :: 0 <= i < Z.Length0 && 0 <= j < Z.Length1 ==> Z[i, j] == old(Z[i, j])
      decreases ilo + nBlock - iPosLast
    {
      IntroStep(K, A, s, V, ilo, iPosLast);
      var nActive := ActiveBulges(ilo, iPosLast, nBulges);
      if 0 < nActive {
        assert BulgePos(iPosLast, nActive - 1) >= ilo;
      }
      DelayedLeftUpdate(A, V, iPosLast, 0, nActive, istopM, ilo, ilo + nBlock);
      AccumulateReflectors(U, nBlock, V, iPosLast, 0, nActive, ilo);
      iPosLast := iPosLast + 1;
    }
    WorkspaceSizes(wantT, A.Length1, ilo, ihi, nShifts, ilo, nBlock);
    BulkUpdate(wantT, wantZ, ilo, ihi, A, Z, V, U, WH, WV, nShifts, ilo, nBlock, ilo + nShifts + 1);
    iPosBlock := ilo + nBlock - nShifts;
  }

  /** One block of the chase (lines 221-343): inside the loop the block is
      always full (n_pos == n_shifts, n_block == n_block_desired); every
      bulge moves n_pos rows down, and the cursor advances by n_pos. */
  method ChaseBlock(K: Kernels, wantT: bool, wantZ: bool, ilo: nat, ihi: nat, A: array2<real>,
                    s: seq<Shift>, Z: array2<real>, V: array2<real>, U: array2<real>,
                    WH: array2<real>, WV: array2<real>, iPosBlock: nat) returns (next: nat)
    requires K.Valid() && Workspace(A, Z, V, U, WH, WV, |s|)
    requires ValidSweep(A.Length1, ilo, ihi, |s|)
    requires 1 <= iPosBlock && ChaseContinues(|s|, ihi, iPosBlock)
    modifies A, Z, V, U, WH, WV
    ensures next == iPosBlock + |s|
    ensures var r := UpdateRange(wantT, A.Length1, ilo, ihi);
      forall i, j ::
        (0 <= i < A.Length0 && 0 <= j < A.Length1
         && !BlockCell(i, j, iPosBlock - 1, iPosBlock, iPosBlock + BlockDesired(|s|), r.0, r.1)) ==>
        A[i, j] == old(A[i, j])
    ensures forall i, j ::
      (0 <= i < Z.Length0 && 0 <= j < Z.Length1
       && !(wantZ && iPosBlock <= j < iPosBlock + BlockDesired(|s|))) ==>
      Z[i, j] == old(Z[i, j])
  {
    var nShifts := |s|;
    var nBulges := NumBulges(nShifts);
    ChaseBlockFull(nShifts, ihi, iPosBlock);
    var nPos := ChasePositions(nShifts, ihi, iPosBlock);
    var nBlock := nShifts + nPos;
    SetIdentity(U, nBlock);
    var istopM := iPosBlock + nBlock;
    var iPosLast := iPosBlock + nShifts - 2;
    while iPosLast < iPosBlock + nShifts - 2 + nPos
      invariant iPosBlock + nShifts - 2 <= iPosLast
      invariant forall i, j :: 0 <= i < A.Length0 && 0 <= j < A.Length1 && !InSquare(i, j, iPosBlock - 1, iPosBlock + nBlock) ==> A[i, j] == old(A[i, j])
      invariant forall i, j :: 0 <= i < Z.Length0 && 0 <= j < Z.Length1 ==> Z[i, j] == old(Z[i, j])
      decreases iPosBlock + nShifts + nPos - iPosLast
    {
      ChaseUColumns(nShifts, iPosBlock, iPosLast, nBulges - 1);
      ChaseStep(K, A, s, V, iPosBlock, iPosLast);
      DelayedLeftUpdate(A, V, iPosLast, 0, nBulges, istopM, iPosBlock - 1, iPosBlock + nBlock);
      AccumulateReflectors(U, nBlock, V, iPosLast, 0, nBulges, iPosBlock);
      iPosLast := iPosLast + 1;
    }
    WorkspaceSizes(wantT, A.Length1, ilo, ihi, nShifts, iPosBlock, nBlock);
    BulkUpdate(wantT, wantZ, ilo, ihi, A, Z, V, U, WH, WV, nShifts, iPosBlock, nBlock, iPosBlock + nBlock);
    next := iPosBlock + nPos;
  }

  /** The chase (lines 219-344): blocks are chased while
      i_pos_block < ihi - n_block_desired. The cursor it stops at is
      ChaseEnd of the cursor it started from, so by ChaseEndBounds the
      removal block still holds the whole train. Every block starts at or
      after the first one, so columns left of first - 1 never change, nor do
      rows at and below ihi; without want_t neither do columns at and past
      ihi or rows above both ilo and first - 1. Z changes only with want_z,
      and only in columns [first, ihi). */
  method ChaseBulges(K: Kernels, wantT: bool, wantZ: bool, ilo: nat, ihi: nat, A: array2<real>,
                     s: seq<Shift>, Z: array2<real>, V: array2<real>, U: array2<real>,
                     WH: array2<real>, WV: array2<real>, first: nat) returns (last: nat)
    requires K.Valid() && Workspace(A, Z, V, U, WH, WV, |s|)
    requires ValidSweep(A.Length1, ilo, ihi, |s|)
    requires 1 <= first && first + |s| <= ihi
    modifies A, Z, V, U, WH, WV
    ensures last == ChaseEnd(|s|, ihi, first)
    ensures first <= last && last + |s| <= ihi && !ChaseContinues(|s|, ihi, last)
    ensures forall i, j :: 0 <= i < A.Length0 && 0 <= j < A.Length1 && (ihi <= i || j + 1 < first) ==>
      A[i, j] == old(A[i, j])
    ensures forall i, j :: 0 <= i < A.Length0 && 0 <= j < A.Length1 && !wantT && (ihi <= j || (i < ilo && i + 1 < first)) ==>
      A[i, j] == old(A[i, j])
    ensures forall i, j :: 0 <= i < Z.Length0 && 0 <= j < Z.Length1 && (!wantZ || j < first || ihi <= j) ==>
      Z[i, j] == old(Z[i, j])
  {
    last := first;
    while last < ihi - BlockDesired(|s|)
      invariant first <= last && last + |s| <= ihi
      invariant ChaseEnd(|s|, ihi, last) == ChaseEnd(|s|, ihi, first)
      invariant forall i, j :: 0 <= i < A.Length0 && 0 <= j < A.Length1 && (ihi <= i || j + 1 < first) ==>
        A[i, j] == old(A[i, j])
      invariant forall i, j :: 0 <= i < A.Length0 && 0 <= j < A.Length1 && !wantT && (ihi <= j || (i < ilo && i + 1 < first)) ==>
        A[i, j] == old(A[i, j])
      invariant forall i, j :: 0 <= i < Z.Length0 && 0 <= j < Z.Length1 && (!wantZ || j < first || ihi <= j) ==>
        Z[i, j] == old(Z[i, j])
      decreases ihi - last
    {
      last := ChaseBlock(K, wantT, wantZ, ilo, ihi, A, s, Z, V, U, WH, WV, last);
    }
  }

  /** Remove the bulges (lines 349-516): the last block runs from
      i_pos_block to ihi; bulges leave through the order-2 reflector at
      ihi - 2, and the delayed update and the accumulation only involve
      bulges that are still of order 3. */
  method RemoveBulges(K: Kernels, wantT: bool, wantZ: bool, ilo: nat, ihi: nat, A: array2<real>,
                      s: seq<Shift>, Z: array2<real>, V: array2<real>, U: array2<real>,
                      WH: array2<real>, WV: array2<real>, iPosBlock: nat)
    requires K.Valid() && Workspace(A, Z, V, U, WH, WV, |s|)
    requires ValidSweep(A.Length1, ilo, ihi, |s|)
    requires 1 <= iPosBlock && iPosBlock + |s| <= ihi && !ChaseContinues(|s|, ihi, iPosBlock)
    modifies A, Z, V, U, WH, WV
    ensures var r := UpdateRange(wantT, A.Length1, ilo, ihi);
      forall i, j :: 0 <= i < A.Length0 && 0 <= j < A.Length1 && !BlockCell(i, j, iPosBlock - 1, iPosBlock, ihi, r.0, r.1) ==>
        A[i, j] == old(A[i, j])
    ensures forall i, j :: 0 <= i < Z.Length0 && 0 <= j < Z.Length1 && !(wantZ && iPosBlock <= j < ihi) ==>
      Z[i, j] == old(Z[i, j])
  {
    var nShifts := |s|;
    var nBulges := NumBulges(nShifts);
    var nBlock := ihi - iPosBlock;
    SetIdentity(U, nBlock);
    var istopM := ihi;
    var iPosLast := iPosBlock + nShifts - 2;
    while iPosLast < ihi + nShifts - 1
      invariant iPosBlock + nShifts - 2 <= iPosLast
      invariant forall i, j :: 0 <= i < A.Length0 && 0 <= j < A.Length1 && !InSquare(i, j, iPosBlock - 1, ihi) ==> A[i, j] == old(A[i, j])
      invariant forall i, j :: 0 <= i < Z.Length0 && 0 <= j < Z.Length1 ==> Z[i, j] == old(Z[i, j])
      decreases ihi + nShifts - iPosLast
    {
      RemoveStep(K, A, s, V, U, iPosBlock, ihi, iPosLast);
      var bStart := DelayedStart(iPosLast, ihi);
      if bStart < nBulges {
        DelayedStartSelects(iPosLast, ihi, bStart);
      }
      DelayedLeftUpdate(A, V, iPosLast, bStart, nBulges, istopM, iPosBlock - 1, ihi);
      AccumulateReflectors(U, nBlock, V, iPosLast, bStart, nBulges, iPosBlock);
      iPosLast := iPosLast + 1;
    }
    WorkspaceSizes(wantT, A.Length1, ilo, ihi, nShifts, iPosBlock, nBlock);
    BulkUpdate(wantT, wantZ, ilo, ihi, A, Z, V, U, WH, WV, nShifts, iPosBlock, nBlock, ihi);
  }

  /** The whole sweep. Rows at and below ihi and columns left of ilo are
      never touched; without the full Schur form nothing outside the window
      [ilo, ihi) x [ilo, ihi) is; Z only changes when it is wanted, and then
      only in the window's columns [ilo, ihi). */
  method MultishiftQRSweep(K: Kernels, wantT: bool, wantZ: bool, ilo: nat, ihi: nat, A: array2<real>,
                           s: seq<Shift>, Z: array2<real>)
    requires K.Valid() && A != Z
    requires A.Length0 == A.Length1 && Z.Length0 == A.Length1 && Z.Length1 == A.Length1
    requires ValidSweep(A.Length1, ilo, ihi, |s|)
    modifies A, Z
    ensures forall i, j :: 0 <= i < A.Length0 && 0 <= j < A.Length1 && (ihi <= i || j < ilo) ==> A[i, j] == old(A[i, j])
    ensures forall i, j :: 0 <= i < A.Length0 && 0 <= j < A.Length1 && !wantT && !InSquare(i, j, ilo, ihi) ==>
      A[i, j] == old(A[i, j])
    ensures forall i, j :: 0 <= i < Z.Length0 && 0 <= j < Z.Length1 && (!wantZ || j < ilo || ihi <= j) ==>
      Z[i, j] == old(Z[i, j])
  {
    var n := A.Length1;
    var nShifts := |s|;
    var nBlockDesired := BlockDesired(nShifts);
    var V := new real[3, NumBulges(nShifts)];
    var U := new real[nBlockDesired, nBlockDesired];
    var WH := new real[nBlockDesired, n];
    var WV := new real[n, nBlockDesired];
    var iPosBlock := IntroduceBulges(K, wantT, wantZ, ilo, ihi, A, s, Z, V, U, WH, WV);
    iPosBlock := ChaseBulges(K, wantT, wantZ, ilo, ihi, A, s, Z, V, U, WH, WV, iPosBlock);
    RemoveBulges(K, wantT, wantZ, ilo, ihi, A, s, Z, V, U, WH, WV, iPosBlock);
  }
}
