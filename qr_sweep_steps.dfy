/** The near-the-diagonal work of one step of the multishift sweep: seeding
    a bulge, moving it one row down, applying the new reflector to the
    narrow strips of A, the delayed update from the left, the accumulation
    of the reflectors into U2, and the order-2 reflector at the bottom of
    the active window. Each method states which entries it may change. */
module SweepSteps {
  import opened Reflector
  import opened ReflectorSteps
  import opened BulgeSchedule

  /** Entry (i, j) lies in the square [lo, hi) x [lo, hi). */
  predicate InSquare(i: int, j: int, lo: int, hi: int)
  {
    lo <= i < hi && lo <= j < hi
  }

  /** The 3x3 window A[r..r+3, c..c+3], column by column. */
  function Window33(A: array2<real>, r: nat, c: nat): (h: seq<real>)
    requires r + 3 <= A.Length0 && c + 3 <= A.Length1
    reads A
    ensures |h| == 9
  {
    [A[r, c], A[r + 1, c], A[r + 2, c],
     A[r, c + 1], A[r + 1, c + 1], A[r + 2, c + 1],
     A[r, c + 2], A[r + 1, c + 2], A[r + 2, c + 2]]
  }

  /** The 4x3 window A[r..r+4, c..c+3], column by column. */
  function Window43(A: array2<real>, r: nat, c: nat): (h: seq<real>)
    requires r + 4 <= A.Length0 && c + 3 <= A.Length1
    reads A
    ensures |h| == 12
  {
    [A[r, c], A[r + 1, c], A[r + 2, c], A[r + 3, c],
     A[r, c + 1], A[r + 1, c + 1], A[r + 2, c + 1], A[r + 3, c + 1],
     A[r, c + 2], A[r + 1, c + 2], A[r + 2, c + 2], A[r + 3, c + 2]]
  }

  /** Write a 4x3 window back into A; nothing outside the window changes. */
  method StoreWindow43(A: array2<real>, r: nat, c: nat, h: seq<real>)
    requires r + 4 <= A.Length0 && c + 3 <= A.Length1 && |h| == 12
    modifies A
    ensures Window43(A, r, c) == h
    ensures forall i, j :: 0 <= i < A.Length0 && 0 <= j < A.Length1 && !(r <= i < r + 4 && c <= j < c + 3) ==> A[i, j] == old(A[i, j])
  {
    A[r, c], A[r + 1, c], A[r + 2, c], A[r + 3, c] := h[0], h[1], h[2], h[3];
    A[r, c + 1], A[r + 1, c + 1], A[r + 2, c + 1], A[r + 3, c + 1] := h[4], h[5], h[6], h[7];
    A[r, c + 2], A[r + 1, c + 2], A[r + 2, c + 2], A[r + 3, c + 2] := h[8], h[9], h[10], h[11];
  }

  /** Introduce a bulge (lines 99-104): the shift column of the leading 3x3
      block, turned into a reflector by larfg, stored as [tau, v1, v2] in
      column b of V. Only that column of V changes; A is only read. */
  method SeedBulge(K: Kernels, A: array2<real>, V: array2<real>, b: nat, ilo: nat, s1: Shift, s2: Shift)
    requires K.Valid() && A != V
    requires ilo + 3 <= A.Length0 && ilo + 3 <= A.Length1
    requires V.Length0 == 3 && b < V.Length1
    modifies V
    ensures var x := K.shiftColumn(Window33(A, ilo, ilo), s1, s2);
            var r := K.larfg(x);
            |r.1| == 3 && V[0, b] == r.0 && V[1, b] == r.1[1] && V[2, b] == r.1[2]
    ensures forall i, j :: 0 <= i < 3 && 0 <= j < V.Length1 && j != b ==> V[i, j] == old(V[i, j])
  {
    var x := K.shiftColumn(Window33(A, ilo, ilo), s1, s2);
    var r := K.larfg(x);
    V[0, b], V[1, b], V[2, b] := r.1[0], r.1[1], r.1[2];
    V[0, b] := r.0;
  }

  /** Chase a bulge one row down (move_bulge on the 4x3 window
      A[i_pos-1..i_pos+3, i_pos-1..i_pos+2] and column b of V). */
  method MoveBulge(K: Kernels, A: array2<real>, V: array2<real>, b: nat, iPos: nat, s1: Shift, s2: Shift)
    requires K.Valid() && A != V
    requires 1 <= iPos && iPos + 3 <= A.Length0 && iPos + 2 <= A.Length1
    requires V.Length0 == 3 && b < V.Length1
    modifies A, V
    ensures var r := K.moveBulge(old(Window43(A, iPos - 1, iPos - 1)), old([V[0, b], V[1, b], V[2, b]]), s1, s2);
            Window43(A, iPos - 1, iPos - 1) == r.0 && [V[0, b], V[1, b], V[2, b]] == r.1
    ensures forall i, j :: 0 <= i < A.Length0 && 0 <= j < A.Length1 && !(iPos - 1 <= i < iPos + 3 && iPos - 1 <= j < iPos + 2) ==> A[i, j] == old(A[i, j])
    ensures forall i, j :: 0 <= i < 3 && 0 <= j < V.Length1 && j != b ==> V[i, j] == old(V[i, j])
  {
    var r := K.moveBulge(Window43(A, iPos - 1, iPos - 1), [V[0, b], V[1, b], V[2, b]], s1, s2);
    StoreWindow43(A, iPos - 1, iPos - 1, r.0);
    V[0, b], V[1, b], V[2, b] := r.1[0], r.1[1], r.1[2];
  }

  /** Apply the reflector just computed for the bulge at i_pos (lines 113-128):
      from the right to columns i_pos..i_pos+2 in rows [row_start, i_pos+3),
      and then from the left to column i_pos only, rows i_pos..i_pos+2. Rows
      above i_pos and columns i_pos+1, i_pos+2 keep the right update alone;
      the three entries of column i_pos on the diagonal and below it get both. */
  method ReflectNearDiagonal(A: array2<real>, V: array2<real>, b: nat, iPos: nat, rowStart: nat)
    requires A != V
    requires rowStart <= iPos && iPos + 3 <= A.Length0 && iPos + 3 <= A.Length1
    requires V.Length0 == 3 && b < V.Length1
    modifies A
    ensures forall j :: rowStart <= j < iPos ==>
      (A[j, iPos], A[j, iPos + 1], A[j, iPos + 2])
        == Reflect3(V[0, b], V[1, b], V[2, b], (old(A[j, iPos]), old(A[j, iPos + 1]), old(A[j, iPos + 2])))
    ensures forall j :: iPos <= j < iPos + 3 ==>
      var y := Reflect3(V[0, b], V[1, b], V[2, b], (old(A[j, iPos]), old(A[j, iPos + 1]), old(A[j, iPos + 2])));
      A[j, iPos + 1] == y.1 && A[j, iPos + 2] == y.2
    ensures var t, v1, v2 := V[0, b], V[1, b], V[2, b];
      var y0 := Reflect3(t, v1, v2, (old(A[iPos, iPos]), old(A[iPos, iPos + 1]), old(A[iPos, iPos + 2])));
      var y1 := Reflect3(t, v1, v2, (old(A[iPos + 1, iPos]), old(A[iPos + 1, iPos + 1]), old(A[iPos + 1, iPos + 2])));
      var y2 := Reflect3(t, v1, v2, (old(A[iPos + 2, iPos]), old(A[iPos + 2, iPos + 1]), old(A[iPos + 2, iPos + 2])));
      (A[iPos, iPos], A[iPos + 1, iPos], A[iPos + 2, iPos]) == Reflect3(t, v1, v2, (y0.0, y1.0, y2.0))
    ensures forall i, j :: 0 <= i < A.Length0 && 0 <= j < A.Length1 && !(rowStart <= i < iPos + 3 && iPos <= j < iPos + 3) ==> A[i, j] == old(A[i, j])
  {
    ApplyRight3(A, rowStart, iPos + 3, iPos, V[0, b], V[1, b], V[2, b]);
    ApplyLeft3(A, iPos, iPos, iPos + 1, V[0, b], V[1, b], V[2, b]);
  }

  /** Delayed update from the left for bulges b in [b_start, b_end) (lines 151-161,
      281-291, 453-464): rows i_pos..i_pos+2, columns i_pos+1..istop_m-1 each.
      Everything happens inside the square [lo, hi). */
  method DelayedLeftUpdate(A: array2<real>, V: array2<real>, iPosLast: nat, bStart: nat, bEnd: nat, istopM: nat, lo: nat, hi: nat)
    requires A != V
    requires V.Length0 == 3 && bEnd <= V.Length1
    requires hi <= A.Length0 && hi <= A.Length1 && istopM == hi
    requires bStart < bEnd ==> lo + 2 * (bEnd - 1) <= iPosLast && iPosLast + 3 <= hi + 2 * bStart
    modifies A
    ensures forall i, j :: 0 <= i < A.Length0 && 0 <= j < A.Length1 && !InSquare(i, j, lo, hi) ==> A[i, j] == old(A[i, j])
  {
    var b := bStart;
    while b < bEnd
      invariant bStart <= b <= bEnd || (bEnd < bStart && b == bStart)
      invariant forall i, j :: 0 <= i < A.Length0 && 0 <= j < A.Length1 && !InSquare(i, j, lo, hi) ==> A[i, j] == old(A[i, j])
    {
      var iPos := iPosLast - 2 * b;
      ApplyLeft3(A, iPos, iPos + 1, istopM, V[0, b], V[1, b], V[2, b]);
      b := b + 1;
    }
  }

  /** Accumulate the reflectors of bulges b in [b_start, b_end) into U2 (lines
      164-175, 294-305, 467-478): each changes rows 0..n_rows-1 of the three
      columns i_pos-base .. i_pos-base+2, all of them below n_block. */
  method AccumulateReflectors(U: array2<real>, nBlock: nat, V: array2<real>, iPosLast: nat, bStart: nat, bEnd: nat, base: nat)
    requires U != V
    requires V.Length0 == 3 && bEnd <= V.Length1
    requires nBlock <= U.Length0 && nBlock <= U.Length1
    requires bStart < bEnd ==> base + 2 * (bEnd - 1) <= iPosLast && iPosLast + 3 <= nBlock + base + 2 * bStart
    modifies U
    ensures forall i, j :: 0 <= i < U.Length0 && 0 <= j < U.Length1 && !InSquare(i, j, 0, nBlock) ==> U[i, j] == old(U[i, j])
  {
    var b := bStart;
    while b < bEnd
      invariant bStart <= b <= bEnd || (bEnd < bStart && b == bStart)
      invariant forall i, j :: 0 <= i < U.Length0 && 0 <= j < U.Length1 && !InSquare(i, j, 0, nBlock) ==> U[i, j] == old(U[i, j])
    {
      var iPos := iPosLast - 2 * b;
      ApplyRight3(U, 0, nBlock, iPos - base, V[0, b], V[1, b], V[2, b]);
      b := b + 1;
    }
  }

  /** The order-2 reflector at the bottom of the window (lines 370-401): larfg on
      A[i_pos..i_pos+2, i_pos-1], which leaves A(i_pos+1, i_pos-1) exactly zero;
      the reflector is applied from the right to columns i_pos, i_pos+1 in rows
      [i_pos_block, i_pos+2), then from the left to rows i_pos, i_pos+1 in
      columns [i_pos, ihi), which with ihi == i_pos + 2 is just the 2x2 block
      on the diagonal (it gets both updates), and
      accumulated into columns i_pos-i_pos_block and i_pos-i_pos_block+1 of U2. */
  method BoundaryReflector(K: Kernels, A: array2<real>, V: array2<real>, U: array2<real>, nBlock: nat,
                           b: nat, iPos: nat, iPosBlock: nat, ihi: nat)
    requires K.Valid() && A != V && A != U && U != V
    requires 1 <= iPosBlock <= iPos && iPos + 2 == ihi && ihi <= A.Length0 && ihi <= A.Length1
    requires iPos - iPosBlock + 2 <= nBlock <= U.Length0 && nBlock <= U.Length1
    requires V.Length0 == 3 && b < V.Length1
    modifies A, V, U
    ensures A[iPos + 1, iPos - 1] == 0.0
    ensures A[iPos, iPos - 1] == K.larfg([old(A[iPos, iPos - 1]), old(A[iPos + 1, iPos - 1])]).1[0]
    ensures V[0, b] == K.larfg([old(A[iPos, iPos - 1]), old(A[iPos + 1, iPos - 1])]).0
    ensures V[1, b] == K.larfg([old(A[iPos, iPos - 1]), old(A[iPos + 1, iPos - 1])]).1[1]
    ensures forall j :: iPosBlock <= j < iPos ==>
      (A[j, iPos], A[j, iPos + 1]) == Reflect2(V[0, b], V[1, b], (old(A[j, iPos]), old(A[j, iPos + 1])))
    ensures var t, v := V[0, b], V[1, b];
      var y0 := Reflect2(t, v, (old(A[iPos, iPos]), old(A[iPos, iPos + 1])));
      var y1 := Reflect2(t, v, (old(A[iPos + 1, iPos]), old(A[iPos + 1, iPos + 1])));
      && (A[iPos, iPos], A[iPos + 1, iPos]) == Reflect2(t, v, (y0.0, y1.0))
      && (A[iPos, iPos + 1], A[iPos + 1, iPos + 1]) == Reflect2(t, v, (y0.1, y1.1))
    ensures var c := iPos - iPosBlock;
      forall j :: 0 <= j < nBlock ==>
        (U[j, c], U[j, c + 1]) == Reflect2(V[0, b], V[1, b], (old(U[j, c]), old(U[j, c + 1])))
    ensures forall i, j ::
      (0 <= i < A.Length0 && 0 <= j < A.Length1
       && !(iPosBlock <= i < iPos + 2 && iPos <= j < iPos + 2)
       && !(iPos <= i < iPos + 2 && iPos - 1 <= j < ihi)) ==> A[i, j] == old(A[i, j])
    ensures forall i, j ::
      (0 <= i < U.Length0 && 0 <= j < U.Length1
       && !(i < nBlock && iPos - iPosBlock <= j < iPos - iPosBlock + 2)) ==> U[i, j] == old(U[i, j])
    ensures forall i, j :: 0 <= i < 3 && 0 <= j < V.Length1 && !(j == b && i < 2) ==> V[i, j] == old(V[i, j])
  {
    var r := K.larfg([A[iPos, iPos - 1], A[iPos + 1, iPos - 1]]);
    V[0, b] := r.0;
    A[iPos, iPos - 1] := r.1[0];
    V[1, b] := r.1[1];
    A[iPos + 1, iPos - 1] := 0.0;
    var t1 := V[0, b];
    var v2 := V[1, b];
    ApplyRight2(A, iPosBlock, iPos + 2, iPos, t1, v2);
    ApplyLeft2(A, iPos, iPos, ihi, t1, v2);
    ApplyRight2(U, 0, nBlock, iPos - iPosBlock, t1, v2);
  }
}
