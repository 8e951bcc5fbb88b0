/** The integer bookkeeping of the multishift sweep: derived sizes, bulge
    positions, active-bulge ranges, block widths and update ranges, as pure
    functions of the sweep's parameters, with the facts the sweep relies on.
    Indices are unsigned in the source; the preconditions stated here are
    exactly what keeps every subtraction from wrapping. */
module BulgeSchedule {

  /** Well-formed sweep parameters: an even number of shifts, at least two,
      and an active window wide enough for one full introduction block. */
  predicate ValidSweep(n: nat, ilo: nat, ihi: nat, nShifts: nat)
  {
    nShifts >= 2 && nShifts % 2 == 0 && ilo + 2 * nShifts <= ihi <= n
  }

  /** n_bulges: each bulge consumes one pair of shifts. */
  function NumBulges(nShifts: nat): (r: nat)
    ensures 2 * r <= nShifts < 2 * r + 2
  {
    nShifts / 2
  }

  /** n_block_desired: a block holds the bulge train plus as many positions again. */
  function BlockDesired(nShifts: nat): nat
  {
    nShifts + nShifts
  }

  /** i_pos = i_pos_last - 2*i_bulge: bulges are packed two rows apart,
      bulge 0 leading. */
  function BulgePos(iPosLast: int, b: nat): int
  {
    iPosLast - 2 * b
  }

  // ---------------------------------------------------------------- introduction

  /** The literal end of the introduction loop: i_pos_last < n_block - 2,
      where n_block == n_block_desired; it does not add ilo. */
  function IntroEnd(nShifts: nat): int
  {
    BlockDesired(nShifts) - 2
  }

  /** n_active_bulges = min(n_bulges, (i_pos_last - ilo)/2 + 1). */
  function ActiveBulges(ilo: nat, iPosLast: nat, nBulges: nat): (r: nat)
    requires ilo <= iPosLast
    ensures r <= nBulges
    ensures forall b :: 0 <= b < r ==> BulgePos(iPosLast, b) >= ilo
    ensures r < nBulges ==> BulgePos(iPosLast, r) < ilo
  {
    if nBulges < (iPosLast - ilo) / 2 + 1 then nBulges else (iPosLast - ilo) / 2 + 1
  }

  /** Within one introduction step the active bulges sit at rows >= ilo,
      strictly decreasing in steps of 2, and exactly the bulge at row ilo
      (if any) is seeded from the shift column: that bulge exists iff
      i_pos_last - ilo is even and less than 2*n_bulges, and it is the last
      active one. */
  lemma {:induction false} IntroPositions(ilo: nat, iPosLast: nat, nBulges: nat)
    requires ilo <= iPosLast
    ensures var act := ActiveBulges(ilo, iPosLast, nBulges);
      && (forall b :: 0 <= b < act ==> ilo <= BulgePos(iPosLast, b) <= iPosLast)
      && (forall b :: 0 < b < act ==> BulgePos(iPosLast, b) == BulgePos(iPosLast, b - 1) - 2)
      && ((exists b :: 0 <= b < act && BulgePos(iPosLast, b) == ilo)
          <==> ((iPosLast - ilo) % 2 == 0 && (iPosLast - ilo) / 2 < nBulges))
      && (forall b :: 0 <= b < act && BulgePos(iPosLast, b) == ilo ==> b == act - 1)
  {
    var act := ActiveBulges(ilo, iPosLast, nBulges);
    var d := iPosLast - ilo;
    if d % 2 == 0 && d / 2 < nBulges {
      assert act == d / 2 + 1;
      assert BulgePos(iPosLast, d / 2) == ilo;
    }
    forall b | 0 <= b < act && BulgePos(iPosLast, b) == ilo
      ensures d % 2 == 0 && d / 2 < nBulges && b == act - 1
    {
      assert d == 2 * b;
    }
  }

  /** Bulge b is seeded in the introduction phase, at step i_pos_last == ilo + 2b,
      exactly when that step is inside the introduction loop. */
  predicate SeededInIntro(ilo: nat, nShifts: nat, b: nat)
  {
    ilo + 2 * b < IntroEnd(nShifts)
  }

  /** Because the introduction loop bound ignores ilo, every bulge is seeded
      before the chase iff ilo < n_shifts. For ilo >= n_shifts the last bulge
      is never introduced, yet the chase moves it. */
  lemma {:induction false} AllBulgesSeededIff(ilo: nat, nShifts: nat)
    requires nShifts >= 2 && nShifts % 2 == 0
    ensures (forall b :: 0 <= b < NumBulges(nShifts) ==> SeededInIntro(ilo, nShifts, b)) <==> ilo < nShifts
  {
    var last := NumBulges(nShifts) - 1;
    assert 2 * last == nShifts - 2;
    if ilo < nShifts {
      forall b | 0 <= b < NumBulges(nShifts) ensures SeededInIntro(ilo, nShifts, b) {
        assert 2 * b <= nShifts - 2;
      }
    } else {
      assert !SeededInIntro(ilo, nShifts, last);
    }
  }

  /** The literal hand-off from introduction to chase: i_pos_block = n_block - n_shifts. */
  function HandOffBlock(nShifts: nat): nat
  {
    BlockDesired(nShifts) - nShifts
  }

  /** With ilo == 0 the hand-off is seamless: the chase's first step
      i_pos_block + n_shifts - 2 is exactly one past the last introduction
      step (so every bulge moves on from the row after the one it reached),
      and every bulge has been seeded. */
  lemma {:induction false} HandOffSeamless(nShifts: nat)
    requires nShifts >= 2 && nShifts % 2 == 0
    ensures HandOffBlock(nShifts) + nShifts - 2 == IntroEnd(nShifts)
    ensures forall b :: 0 <= b < NumBulges(nShifts) ==> SeededInIntro(0, nShifts, b)
  {
    assert HandOffBlock(nShifts) == nShifts;
    AllBulgesSeededIff(0, nShifts);
  }

  /** The literal hand-off leaves the window exactly when ilo >= n_shifts:
      the first chase block then starts its near-diagonal work at row and
      column i_pos_block - 1 = n_shifts - 1, above ilo, although the
      introduction was meant to be confined to the window from ilo on. */
  lemma LiteralHandOffAboveIlo(ilo: nat, nShifts: nat)
    requires nShifts >= 2 && nShifts % 2 == 0
    ensures HandOffBlock(nShifts) - 1 < ilo <==> nShifts <= ilo
  {
  }

  /** The introduction bounds measured from ilo, as the window
      A(ilo:ilo+n_block, ilo:ilo+n_block) the introduction works in calls
      for: the step loop runs while i_pos_last < ilo + n_block - 2 ... */
  function IntroStop(ilo: nat, nShifts: nat): int
  {
    ilo + BlockDesired(nShifts) - 2
  }

  /** ... and the chase starts from i_pos_block = ilo + n_block - n_shifts. */
  function HandOff(ilo: nat, nShifts: nat): nat
  {
    ilo + BlockDesired(nShifts) - nShifts
  }

  /** With the bounds measured from ilo the hand-off is seamless for every
      ilo: every bulge is seeded inside the introduction loop, the chase's
      first step is one past the last introduction step, and the chase's
      first near-diagonal row i_pos_block - 1 is inside the window. For
      ilo == 0 these are the literal bounds. */
  lemma {:induction false} HandOffSeamlessFromIlo(ilo: nat, nShifts: nat)
    requires nShifts >= 2 && nShifts % 2 == 0
    ensures forall b :: 0 <= b < NumBulges(nShifts) ==> ilo + 2 * b < IntroStop(ilo, nShifts)
    ensures HandOff(ilo, nShifts) + nShifts - 2 == IntroStop(ilo, nShifts)
    ensures ilo < HandOff(ilo, nShifts) - 1 && HandOff(ilo, nShifts) + nShifts == ilo + BlockDesired(nShifts)
    ensures ilo == 0 ==> HandOff(ilo, nShifts) == HandOffBlock(nShifts) && IntroStop(ilo, nShifts) == IntroEnd(nShifts)
  {
    forall b | 0 <= b < NumBulges(nShifts) ensures ilo + 2 * b < IntroStop(ilo, nShifts) {
      assert 2 * b <= nShifts - 2;
    }
  }

  /** U2 columns of the introduction block: i_pos - ilo .. i_pos - ilo + 2
      stay below n_block for every step of the loop. */
  lemma IntroUColumns(ilo: nat, nShifts: nat, iPosLast: nat, b: nat)
    requires ilo <= iPosLast < IntroStop(ilo, nShifts)
    requires b < ActiveBulges(ilo, iPosLast, NumBulges(nShifts))
    ensures 0 <= BulgePos(iPosLast, b) - ilo
    ensures BulgePos(iPosLast, b) - ilo + 2 < BlockDesired(nShifts)
  {
  }

  // ---------------------------------------------------------------- chase

  /** n_pos = min(n_block_desired - n_shifts, ihi - n_shifts - 1 - i_pos_block). */
  function ChasePositions(nShifts: nat, ihi: nat, iPosBlock: nat): int
  {
    var room := ihi - nShifts - 1 - iPosBlock;
    if BlockDesired(nShifts) - nShifts <= room then BlockDesired(nShifts) - nShifts else room
  }

  /** The chase loop guard, i_pos_block < ihi - n_block_desired. */
  predicate ChaseContinues(nShifts: nat, ihi: nat, iPosBlock: nat)
  {
    iPosBlock < ihi - BlockDesired(nShifts)
  }

  /** Inside the chase loop every block is full: n_pos == n_shifts, so
      n_block == n_block_desired, and the block ends strictly before ihi. */
  lemma ChaseBlockFull(nShifts: nat, ihi: nat, iPosBlock: nat)
    requires ChaseContinues(nShifts, ihi, iPosBlock)
    ensures ChasePositions(nShifts, ihi, iPosBlock) == nShifts
    ensures nShifts + ChasePositions(nShifts, ihi, iPosBlock) == BlockDesired(nShifts)
    ensures iPosBlock + BlockDesired(nShifts) < ihi
  {
  }

  /** Where the chase leaves the block cursor: advance by n_pos while the guard holds. */
  function ChaseEnd(nShifts: nat, ihi: nat, iPosBlock: nat): (r: nat)
    requires nShifts >= 1
    decreases ihi - iPosBlock
  {
    if ChaseContinues(nShifts, ihi, iPosBlock) then ChaseEnd(nShifts, ihi, iPosBlock + nShifts) else iPosBlock
  }

  /** The chase terminates with the cursor not behind where it started, at or
      past ihi - n_block_desired, and still at least n_shifts rows above ihi,
      so the removal block ihi - i_pos_block holds the whole bulge train. */
  lemma {:induction false} ChaseEndBounds(nShifts: nat, ihi: nat, iPosBlock: nat)
    requires nShifts >= 1
    requires iPosBlock + nShifts <= ihi
    ensures var e := ChaseEnd(nShifts, ihi, iPosBlock);
      && iPosBlock <= e
      && !ChaseContinues(nShifts, ihi, e)
      && e + nShifts <= ihi
    decreases ihi - iPosBlock
  {
    if ChaseContinues(nShifts, ihi, iPosBlock) {
      ChaseEndBounds(nShifts, ihi, iPosBlock + nShifts);
    }
  }

  /** U2 columns of a chase block: i_pos - i_pos_block .. + 2 stay below n_block
      and the move_bulge window rows i_pos - 1 .. i_pos + 2 stay inside the block. */
  lemma ChaseUColumns(nShifts: nat, iPosBlock: nat, iPosLast: nat, b: nat)
    requires nShifts >= 2 && nShifts % 2 == 0
    requires iPosBlock + nShifts - 2 <= iPosLast < iPosBlock + BlockDesired(nShifts) - 2
    requires b < NumBulges(nShifts)
    ensures iPosBlock <= BulgePos(iPosLast, b)
    ensures BulgePos(iPosLast, b) + 3 <= iPosBlock + BlockDesired(nShifts)
  {
  }

  // ---------------------------------------------------------------- removal

  /** i_bulge_start of the removal step (line 364): the first bulge still at or above ihi - 2. */
  function RemoveStart(iPosLast: nat, ihi: nat): nat
  {
    if iPosLast + 3 > ihi then (iPosLast + 3 - ihi) / 2 else 0
  }

  /** i_bulge_start of the delayed update (line 432): the first bulge at or above ihi - 3. */
  function DelayedStart(iPosLast: nat, ihi: nat): nat
  {
    if iPosLast + 4 > ihi then (iPosLast + 4 - ihi) / 2 else 0
  }

  /** The removal start selects exactly the bulges with i_pos <= ihi - 2,
      and it never decreases as i_pos_last grows. */
  lemma RemoveStartSelects(iPosLast: nat, ihi: nat, b: nat)
    requires ihi >= 2
    ensures b >= RemoveStart(iPosLast, ihi) <==> BulgePos(iPosLast, b) <= ihi - 2
    ensures RemoveStart(iPosLast, ihi) <= RemoveStart(iPosLast + 1, ihi)
  {
  }

  /** The delayed-update start selects exactly the bulges with i_pos <= ihi - 3,
      so its 3-row updates stay in rows < ihi; it skips exactly the bulge that
      was just handled at ihi - 2 by the order-2 path (if there is one). */
  lemma DelayedStartSelects(iPosLast: nat, ihi: nat, b: nat)
    requires ihi >= 3
    ensures b >= DelayedStart(iPosLast, ihi) <==> BulgePos(iPosLast, b) + 3 <= ihi
    ensures RemoveStart(iPosLast, ihi) <= DelayedStart(iPosLast, ihi) <= RemoveStart(iPosLast, ihi) + 1
    ensures RemoveStart(iPosLast, ihi) <= b < DelayedStart(iPosLast, ihi) <==> BulgePos(iPosLast, b) == ihi - 2
  {
  }

  /** Over the removal loop i_pos_last in [i_pos_block + n_shifts - 2, ihi + n_shifts - 1),
      each bulge reaches row ihi - 2 at exactly one step, and that step lies in the loop. */
  lemma {:induction false} BulgeHitsBoundaryOnce(nShifts: nat, ihi: nat, iPosBlock: nat, b: nat)
    requires nShifts >= 2 && nShifts % 2 == 0
    requires iPosBlock + nShifts <= ihi
    requires b < NumBulges(nShifts)
    ensures var hit := ihi - 2 + 2 * b;
      && iPosBlock + nShifts - 2 <= hit < ihi + nShifts - 1
      && BulgePos(hit, b) == ihi - 2
      && forall p :: iPosBlock + nShifts - 2 <= p < ihi + nShifts - 1 && BulgePos(p, b) == ihi - 2 ==> p == hit
  {
    assert 2 * b <= nShifts - 2;
  }

  /** In the removal block every processed bulge's reflector stays inside the
      block: rows i_pos - 1 .. i_pos + 2 (order 3) or i_pos .. i_pos + 1 (order 2)
      lie in [i_pos_block - 1, ihi), and its U2 columns are below n_block = ihi - i_pos_block. */
  lemma RemoveUColumns(nShifts: nat, ihi: nat, iPosBlock: nat, iPosLast: nat, b: nat)
    requires nShifts >= 2 && nShifts % 2 == 0
    requires iPosBlock + nShifts - 2 <= iPosLast
    requires RemoveStart(iPosLast, ihi) <= b < NumBulges(nShifts)
    requires ihi >= 2
    ensures iPosBlock <= BulgePos(iPosLast, b) <= ihi - 2
    ensures BulgePos(iPosLast, b) - iPosBlock + 1 < ihi - iPosBlock
  {
  }

  // ---------------------------------------------------------------- bulk update ranges

  /** [istart_m, istop_m) for the bulk update: the whole matrix when the
      Schur form is wanted, the active window otherwise. */
  function UpdateRange(wantT: bool, n: nat, ilo: nat, ihi: nat): (r: (nat, nat))
    requires ilo <= ihi <= n
    ensures r.0 <= ilo && ihi <= r.1 <= n
    ensures wantT ==> r == (0, n)
    ensures !wantT ==> r == (ilo, ihi)
  {
    if wantT then (0, n) else (ilo, ihi)
  }

  /** The block of one bulk update: the introduction block [ilo, ilo + n_block_desired),
      a chase block [i_pos_block, i_pos_block + n_block_desired) while the chase
      guard holds, or the removal block [i_pos_block, ihi) once it fails. */
  predicate PhaseBlock(ilo: nat, ihi: nat, nShifts: nat, b0: nat, nBlock: nat)
  {
    || (b0 == ilo && nBlock == BlockDesired(nShifts))
    || (ChaseContinues(nShifts, ihi, b0) && nBlock == BlockDesired(nShifts))
    || (b0 + nShifts <= ihi && !ChaseContinues(nShifts, ihi, b0) && nBlock == ihi - b0)
  }

  /** Every scratch slice of a bulk update (lines 188-211, 318-341, 492-515)
      fits the storage allocated at lines 57-71. The block is between
      n_shifts and n_block_desired wide and ends by ihi, so U2 fits U and the
      horizontal slice starts inside [istart_m, istop_m). The horizontal slice
      needs no more cells than the n_block_desired x n view WH, and the
      vertical slice (when istart_m < i_pos_block) and the Z slice no more
      than the n x n_block_desired view WV; both views share one buffer of
      n_block_desired * n cells. */
  lemma {:induction false} WorkspaceSizes(wantT: bool, n: nat, ilo: nat, ihi: nat, nShifts: nat, b0: nat, nBlock: nat)
    requires ValidSweep(n, ilo, ihi, nShifts)
    requires PhaseBlock(ilo, ihi, nShifts, b0, nBlock)
    ensures var r := UpdateRange(wantT, n, ilo, ihi);
      && nShifts <= nBlock <= BlockDesired(nShifts)
      && b0 + nBlock <= ihi <= r.1
      && nBlock * (r.1 - (b0 + nBlock)) <= BlockDesired(nShifts) * n
      && (r.0 < b0 ==> (b0 - r.0) * nBlock <= n * BlockDesired(nShifts))
      && n * nBlock <= n * BlockDesired(nShifts)
  {
    var r := UpdateRange(wantT, n, ilo, ihi);
    var nbd := BlockDesired(nShifts);
    if b0 == ilo && nBlock == nbd {
    } else if ChaseContinues(nShifts, ihi, b0) && nBlock == nbd {
    } else {
      assert ihi - b0 <= nbd;
    }
    assert nShifts <= nBlock <= nbd && b0 + nBlock <= ihi;
    ProductsBounded(nBlock, r.1 - (b0 + nBlock), nbd, n);
    if r.0 < b0 {
      ProductsBounded(b0 - r.0, nBlock, n, nbd);
    }
    ProductsBounded(n, nBlock, n, nbd);
  }

  /** a * b <= c * d when a <= c and b <= d, over naturals. */
  lemma ProductsBounded(a: nat, b: nat, c: nat, d: nat)
    requires a <= c && b <= d
    ensures a * b <= c * d
  {
    assert a * b <= c * b;
    assert c * b <= c * d;
  }
}
