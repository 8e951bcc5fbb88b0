/** org2r: overwrite the m x n column-major matrix A (leading dimension
    lda), whose first k columns hold Householder vectors below the
    diagonal, with the first n columns of Q = H_0 H_1 ... H_{k-1}. Sizes
    are the unsigned 64-bit size type; A and the work vector are arrays
    that the routine updates in place, one cell at a time. The kernels
    larf (apply a reflector from the left) and scal (scale a vector) are
    modelled exactly over the reals. */
module Org2r {
  import opened HouseholderProduct

  /** size_t(-1), the largest value of the unsigned 64-bit size type. */
  const SIZE_MAX: int := 0xFFFF_FFFF_FFFF_FFFF

  type Size = x: int | 0 <= x <= SIZE_MAX

  /** --i on the unsigned size type; also how k - 1 is formed. It is
      subtraction of 1 modulo 2^64: the result plus one wraps back to i. */
  function Dec(i: Size): (r: Size)
    ensures (r + 1) % (SIZE_MAX + 1) == i
    ensures i > 0 ==> r == i - 1
    ensures i == 0 ==> r == SIZE_MAX
  {
    if i == 0 then SIZE_MAX else i - 1
  }

  // ---------------------------------------------------------------- the loop guard

  /** The indices a loop `for (i = start; guard(i); --i)` visits, at most fuel of them. */
  function Visits(start: Size, guard: Size -> bool, fuel: nat): seq<int>
    decreases fuel
  {
    if fuel == 0 || !guard(start) then [] else [start] + Visits(Dec(start), guard, fuel - 1)
  }

  /** The guard as written, i > size_t(-1). */
  predicate AsWrittenGuard(i: Size)
  {
    i > SIZE_MAX
  }

  /** The guard that stops after i == 0 wraps around, i != size_t(-1). */
  predicate CorrectedGuard(i: Size)
  {
    i != SIZE_MAX
  }

  /** k-1, k-2, ..., 0. */
  function Countdown(k: nat): seq<int>
  {
    seq(k, p => k - 1 - p)
  }

  /** As written, the main loop of org2r runs no iteration at all, for any k. */
  lemma AsWrittenVisitsNothing(k: Size, fuel: nat)
    ensures Visits(Dec(k), AsWrittenGuard, fuel) == []
  {
  }

  /** With the corrected guard the loop visits k-1 down to 0, each exactly once. */
  lemma {:induction false} CorrectedVisitsCountdown(k: Size, fuel: nat)
    requires k <= fuel
    ensures Visits(Dec(k), CorrectedGuard, fuel) == Countdown(k)
  {
    if k > 0 {
      CorrectedVisitsCountdown(k - 1, fuel - 1);
      assert Visits(Dec(k), CorrectedGuard, fuel) == [k - 1] + Countdown(k - 1);
    }
  }

  /** The smallest input that shows the difference: with k == 1 the column
      holding H_0 is never processed as written. */
  lemma OneReflectorSkipped()
    ensures Visits(Dec(1), AsWrittenGuard, 1) == []
    ensures Visits(Dec(1), CorrectedGuard, 1) == [0]
  {
    CorrectedVisitsCountdown(1, 1);
  }

  /** The same loop when the counter is a signed 64-bit integer: then
      size_t(-1) is -1 and the guard i > -1 stops right after i == 0. */
  function SignedVisits(start: int, fuel: nat): seq<int>
    decreases fuel
  {
    if fuel == 0 || !(start > -1) then [] else [start] + SignedVisits(start - 1, fuel - 1)
  }

  /** Under the signed reading the guard as written already visits k-1
      down to 0, each once, and nothing for k == 0: the corrected unsigned
      guard reproduces exactly this order. */
  lemma {:induction false} SignedVisitsCountdown(k: nat, fuel: nat)
    requires k <= fuel
    ensures SignedVisits(k - 1, fuel) == Countdown(k)
  {
    if k > 0 {
      SignedVisitsCountdown(k - 1, fuel - 1);
      assert SignedVisits(k - 1, fuel) == [k - 1] + Countdown(k - 1);
    }
  }

  // ---------------------------------------------------------------- column-major storage

  /** A(r, c) lives at A[r + c*lda]. */
  function Idx(r: int, c: int, lda: int): int
  {
    r + c * lda
  }

  lemma MulAtLeast(a: int, b: nat)
    requires a >= 1
    ensures a * b >= b
  {
  }

  /** With rows below lda, distinct (r, c) live in distinct cells. */
  lemma ColumnMajorInjective(r1: nat, c1: nat, r2: nat, c2: nat, lda: nat)
    requires r1 < lda && r2 < lda
    ensures Idx(r1, c1, lda) == Idx(r2, c2, lda) <==> r1 == r2 && c1 == c2
  {
    if c1 > c2 {
      MulAtLeast(c1 - c2, lda);
      assert Idx(r1, c1, lda) - Idx(r2, c2, lda) == r1 - r2 + (c1 - c2) * lda;
    } else if c2 > c1 {
      MulAtLeast(c2 - c1, lda);
      assert Idx(r2, c2, lda) - Idx(r1, c1, lda) == r2 - r1 + (c2 - c1) * lda;
    }
  }

  /** The cell of A(r, c) decodes back to row r and column c. */
  lemma IdxDecode(r: nat, c: nat, lda: nat)
    requires r < lda
    ensures Idx(r, c, lda) % lda == r && Idx(r, c, lda) / lda == c
  {
    var p := Idx(r, c, lda);
    ColumnMajorInjective(p % lda, p / lda, r, c, lda);
  }

  /** Cell p of the array belongs to the m x n matrix (the rows between m
      and lda are padding). */
  predicate InMatrix(p: int, m: nat, n: nat, lda: nat)
  {
    lda > 0 && p % lda < m && p / lda < n
  }

  /** The m x n matrix with leading dimension lda >= m fits in the array. */
  ghost predicate Fits(A: array<real>, m: nat, n: nat, lda: nat)
  {
    && m <= lda
    && forall r, c :: 0 <= r < m && 0 <= c < n ==> Idx(r, c, lda) < A.Length
  }

  /** Fitting means the array holds (n-1)*lda + m cells. */
  lemma FitsIffExtent(A: array<real>, m: nat, n: nat, lda: nat)
    requires m <= lda
    ensures Fits(A, m, n, lda) <==> (m == 0 || n == 0 || (n - 1) * lda + m <= A.Length)
  {
    if m > 0 && n > 0 {
      if (n - 1) * lda + m <= A.Length {
        forall r, c | 0 <= r < m && 0 <= c < n
          ensures Idx(r, c, lda) < A.Length
        {
          MulAtLeast(1, lda);
          assert (n - 1) * lda - c * lda == (n - 1 - c) * lda;
          if n - 1 - c >= 1 {
            MulAtLeast(n - 1 - c, lda);
          }
        }
      }
      if Fits(A, m, n, lda) {
        assert Idx(m - 1, n - 1, lda) < A.Length;
      }
    }
  }

  /** Column c of the matrix. */
  ghost function Col(A: array<real>, lda: nat, m: nat, n: nat, c: nat): seq<real>
    requires Fits(A, m, n, lda) && c < n
    reads A
  {
    seq(m, r requires 0 <= r < m reads A => A[Idx(r, c, lda)])
  }

  /** A(r, c), read from its cell. */
  function Get(A: array<real>, lda: nat, m: nat, n: nat, r: nat, c: nat): (x: real)
    requires Fits(A, m, n, lda) && r < m && c < n
    reads A
    ensures x == Col(A, lda, m, n, c)[r]
  {
    A[Idx(r, c, lda)]
  }

  /** The matrix as its sequence of columns. */
  ghost function Cols(A: array<real>, lda: nat, m: nat, n: nat): seq<seq<real>>
    requires Fits(A, m, n, lda)
    reads A
  {
    seq(n, c requires 0 <= c < n reads A => Col(A, lda, m, n, c))
  }

  /** A(r, c) := x. */
  method SetCell(A: array<real>, lda: nat, m: nat, n: nat, r: nat, c: nat, x: real)
    requires Fits(A, m, n, lda) && r < m && c < n
    modifies A
    ensures Col(A, lda, m, n, c) == old(Col(A, lda, m, n, c))[r := x]
    ensures forall d :: 0 <= d < n && d != c ==> Col(A, lda, m, n, d) == old(Col(A, lda, m, n, d))
    ensures forall p :: 0 <= p < A.Length && !InMatrix(p, m, n, lda) ==> A[p] == old(A[p])
  {
    A[Idx(r, c, lda)] := x;
    IdxDecode(r, c, lda);
    forall d, r' | 0 <= d < n && 0 <= r' < m && (d, r') != (c, r)
      ensures A[Idx(r', d, lda)] == old(A[Idx(r', d, lda)])
    {
      ColumnMajorInjective(r', d, r, c, lda);
    }
  }

  // ---------------------------------------------------------------- kernels

  /** Rows [lo, hi) of column c become zero (lines 55-56 and 72-73). */
  method ZeroColumn(A: array<real>, lda: nat, m: nat, n: nat, c: nat, lo: nat, hi: nat)
    requires Fits(A, m, n, lda) && c < n && lo <= hi <= m
    modifies A
    ensures forall r :: 0 <= r < m ==> Col(A, lda, m, n, c)[r] == if lo <= r < hi then 0.0 else old(Col(A, lda, m, n, c))[r]
    ensures forall d :: 0 <= d < n && d != c ==> Col(A, lda, m, n, d) == old(Col(A, lda, m, n, d))
    ensures forall p :: 0 <= p < A.Length && !InMatrix(p, m, n, lda) ==> A[p] == old(A[p])
  {
    var l := lo;
    while l < hi
      invariant lo <= l <= hi
      invariant forall r :: 0 <= r < m ==> Col(A, lda, m, n, c)[r] == if lo <= r < l then 0.0 else old(Col(A, lda, m, n, c))[r]
      invariant forall d :: 0 <= d < n && d != c ==> Col(A, lda, m, n, d) == old(Col(A, lda, m, n, d))
      invariant forall p :: 0 <= p < A.Length && !InMatrix(p, m, n, lda) ==> A[p] == old(A[p])
    {
      SetCell(A, lda, m, n, l, c, 0.0);
      l := l + 1;
    }
  }

  /** scal(m - lo, alpha, &A(lo, c), 1): rows [lo, m) of column c are scaled. */
  method ScaleColumn(A: array<real>, lda: nat, m: nat, n: nat, c: nat, lo: nat, alpha: real)
    requires Fits(A, m, n, lda) && c < n && lo <= m
    modifies A
    ensures forall r :: 0 <= r < m ==> Col(A, lda, m, n, c)[r] == if lo <= r then alpha * old(Col(A, lda, m, n, c))[r] else old(Col(A, lda, m, n, c))[r]
    ensures forall d :: 0 <= d < n && d != c ==> Col(A, lda, m, n, d) == old(Col(A, lda, m, n, d))
    ensures forall p :: 0 <= p < A.Length && !InMatrix(p, m, n, lda) ==> A[p] == old(A[p])
  {
    var l := lo;
    while l < m
      invariant lo <= l <= m
      invariant forall r :: 0 <= r < m ==> Col(A, lda, m, n, c)[r] == if lo <= r < l then alpha * old(Col(A, lda, m, n, c))[r] else old(Col(A, lda, m, n, c))[r]
      invariant forall d :: 0 <= d < n && d != c ==> Col(A, lda, m, n, d) == old(Col(A, lda, m, n, d))
      invariant forall p :: 0 <= p < A.Length && !InMatrix(p, m, n, lda) ==> A[p] == old(A[p])
    {
      SetCell(A, lda, m, n, l, c, alpha * A[Idx(l, c, lda)]);
      l := l + 1;
    }
  }

  /** The reflector vector larf reads from column i: the column from row i
      down, zeros above. */
  function Tail(col: seq<real>, i: nat): seq<real>
  {
    seq(|col|, r requires 0 <= r < |col| => if r < i then 0.0 else col[r])
  }

  lemma {:induction false} TailDotBelow(col: seq<real>, x: seq<real>, i: nat, hi: nat)
    requires hi <= i && hi <= |col| && |col| == |x|
    ensures DotFrom(Tail(col, i), x, 0, hi) == 0.0
  {
    if hi > 0 {
      TailDotBelow(col, x, i, hi - 1);
    }
  }

  /** The sum larf's gemv forms over rows [i, hi) is v^T x for v = Tail(col, i). */
  lemma {:induction false} TailDotFrom(col: seq<real>, x: seq<real>, i: nat, hi: nat)
    requires i <= hi <= |col| && |col| == |x|
    ensures DotFrom(Tail(col, i), x, 0, hi) == DotFrom(col, x, i, hi)
  {
    if hi == i {
      TailDotBelow(col, x, i, hi);
    } else {
      TailDotFrom(col, x, i, hi - 1);
      assert Tail(col, i)[hi - 1] == col[hi - 1];
    }
  }

  /** One column of larf's rank-1 update: rows [i, m) of column c gain
      temp times column i (the ger call). */
  method AxpyColumn(A: array<real>, lda: nat, m: nat, n: nat, c: nat, i: nat, temp: real)
    requires Fits(A, m, n, lda) && i < c < n && i <= m
    modifies A
    ensures forall r :: 0 <= r < m ==>
      Col(A, lda, m, n, c)[r] == if i <= r then old(Col(A, lda, m, n, c))[r] + old(Col(A, lda, m, n, i))[r] * temp else old(Col(A, lda, m, n, c))[r]
    ensures forall d :: 0 <= d < n && d != c ==> Col(A, lda, m, n, d) == old(Col(A, lda, m, n, d))
    ensures forall p :: 0 <= p < A.Length && !InMatrix(p, m, n, lda) ==> A[p] == old(A[p])
  {
    var l := i;
    while l < m
      invariant i <= l <= m
      invariant forall r :: 0 <= r < m ==>
        Col(A, lda, m, n, c)[r] == if i <= r < l then old(Col(A, lda, m, n, c))[r] + old(Col(A, lda, m, n, i))[r] * temp else old(Col(A, lda, m, n, c))[r]
      invariant forall d :: 0 <= d < n && d != c ==> Col(A, lda, m, n, d) == old(Col(A, lda, m, n, d))
      invariant forall p :: 0 <= p < A.Length && !InMatrix(p, m, n, lda) ==> A[p] == old(A[p])
      invariant Col(A, lda, m, n, i) == old(Col(A, lda, m, n, i))
    {
      assert A[Idx(l, c, lda)] == old(Col(A, lda, m, n, c))[l] && A[Idx(l, i, lda)] == old(Col(A, lda, m, n, i))[l];
      SetCell(A, lda, m, n, l, c, A[Idx(l, c, lda)] + A[Idx(l, i, lda)] * temp);
      l := l + 1;
    }
  }

  /** The column update of larf, x + (-t v^T x) v on rows from i down, is
      H x with v = Tail(col, i). */
  lemma AxpyIsReflection(x: seq<real>, y: seq<real>, col: seq<real>, i: nat, t: real, d: real, temp: real)
    requires |x| == |y| == |col| && d == Dot(Tail(col, i), x) && temp == -t * d
    requires forall r :: 0 <= r < |x| ==> y[r] == if i <= r then x[r] + col[r] * temp else x[r]
    ensures y == ApplyH(Tail(col, i), t, x)
  {
    var v := Tail(col, i);
    forall r | 0 <= r < |x|
      ensures y[r] == ApplyH(v, t, x)[r]
    {
      assert ApplyH(v, t, x)[r] == x[r] - t * d * v[r];
      if i <= r {
        assert y[r] == x[r] + v[r] * temp;
      }
    }
  }

  /** One column of larf's rank-one update: column c becomes H c, where
      d is v^T c; every other column is left alone. */
  method ReflectColumn(A: array<real>, lda: nat, m: nat, n: nat, i: nat, c: nat, t: real, d: real)
    requires Fits(A, m, n, lda) && i < m && i < c < n
    requires d == Dot(Tail(Col(A, lda, m, n, i), i), Col(A, lda, m, n, c))
    modifies A
    ensures Col(A, lda, m, n, c) == ApplyH(Tail(old(Col(A, lda, m, n, i)), i), t, old(Col(A, lda, m, n, c)))
    ensures forall e :: 0 <= e < n && e != c ==> Col(A, lda, m, n, e) == old(Col(A, lda, m, n, e))
    ensures forall p :: 0 <= p < A.Length && !InMatrix(p, m, n, lda) ==> A[p] == old(A[p])
  {
    ghost var x := Col(A, lda, m, n, c);
    ghost var col := Col(A, lda, m, n, i);
    var temp := -t * d;
    AxpyColumn(A, lda, m, n, c, i, temp);
    AxpyIsReflection(x, Col(A, lda, m, n, c), col, i, t, d, temp);
  }

  /** One entry of larf's gemv: v^T A(:, c) for v = Tail(A(:, i), i), summed
      over rows i .. m-1. A is only read. */
  method ColumnDot(A: array<real>, lda: nat, m: nat, n: nat, i: nat, c: nat) returns (sum: real)
    requires Fits(A, m, n, lda) && i < m && i < c < n
    ensures sum == Dot(Tail(Col(A, lda, m, n, i), i), Col(A, lda, m, n, c))
  {
    sum := 0.0;
    var l := i;
    while l < m
      invariant i <= l <= m
      invariant sum == DotFrom(Col(A, lda, m, n, i), Col(A, lda, m, n, c), i, l)
    {
      sum := sum + Get(A, lda, m, n, l, i) * Get(A, lda, m, n, l, c);
      l := l + 1;
    }
    TailDotFrom(Col(A, lda, m, n, i), Col(A, lda, m, n, c), i, m);
  }

  /** The gemv half of larf: work[off + c - i - 1] := v^T A(:, c) for every
      column c in (i, n), where v = Tail(A(:, i), i). A is only read. */
  method LarfProducts(A: array<real>, lda: nat, m: nat, n: nat, i: nat, work: array<real>, off: nat)
    requires Fits(A, m, n, lda) && i < m && i + 1 < n && work != A
    requires off + (n - i - 1) <= work.Length
    modifies work
    ensures forall c :: i < c < n ==> work[off + c - i - 1] == Dot(Tail(Col(A, lda, m, n, i), i), Col(A, lda, m, n, c))
    ensures forall q :: 0 <= q < work.Length && !(off <= q < off + (n - i - 1)) ==> work[q] == old(work[q])
  {
    var j := 0;
    while j < n - i - 1
      invariant j <= n - i - 1
      invariant forall c :: i < c < i + 1 + j ==> work[off + c - i - 1] == Dot(Tail(Col(A, lda, m, n, i), i), Col(A, lda, m, n, c))
      invariant forall q :: 0 <= q < work.Length && !(off <= q < off + j) ==> work[q] == old(work[q])
    {
      var sum := ColumnDot(A, lda, m, n, i, i + 1 + j);
      work[off + j] := sum;
      j := j + 1;
    }
  }

  /** The ger half of larf: column c in (i, n) gains -t * work[off + c - i - 1]
      times v = Tail(A(:, i), i). When the work entries are the products
      v^T A(:, c), every such column becomes H A(:, c) with H = I - t v v^T. */
  method LarfUpdate(A: array<real>, lda: nat, m: nat, n: nat, i: nat, t: real, work: array<real>, off: nat)
    requires Fits(A, m, n, lda) && i < m && i + 1 < n && work != A
    requires off + (n - i - 1) <= work.Length
    requires forall c :: i < c < n ==> work[off + c - i - 1] == Dot(Tail(Col(A, lda, m, n, i), i), Col(A, lda, m, n, c))
    modifies A
    ensures forall c :: i < c < n ==> Col(A, lda, m, n, c) == ApplyH(Tail(old(Col(A, lda, m, n, i)), i), t, old(Col(A, lda, m, n, c)))
    ensures forall c :: 0 <= c <= i ==> Col(A, lda, m, n, c) == old(Col(A, lda, m, n, c))
    ensures forall p :: 0 <= p < A.Length && !InMatrix(p, m, n, lda) ==> A[p] == old(A[p])
  {
    ghost var v := Tail(Col(A, lda, m, n, i), i);
    var j := 0;
    while j < n - i - 1
      invariant j <= n - i - 1
      invariant forall c :: i < c < i + 1 + j ==> Col(A, lda, m, n, c) == ApplyH(v, t, old(Col(A, lda, m, n, c)))
      invariant forall c :: (0 <= c <= i || i + 1 + j <= c < n) ==> Col(A, lda, m, n, c) == old(Col(A, lda, m, n, c))
      invariant forall p :: 0 <= p < A.Length && !InMatrix(p, m, n, lda) ==> A[p] == old(A[p])
    {
      ReflectColumn(A, lda, m, n, i, i + 1 + j, t, work[off + j]);
      j := j + 1;
    }
  }

  /** The larf call of lines 65 and 120 over exact reals: every column c > i
      becomes H c for H = I - t v v^T, v = A(i:m, i); columns up to i are
      left alone; only work[off .. off + n - i - 1) is used. The source
      passes the element A(i, i + 1) itself as larf's matrix argument; the
      model reads it as the trailing block starting at that element, whose
      address is &A(i, i + 1). */
  method Larf(A: array<real>, lda: nat, m: nat, n: nat, i: nat, t: real, work: array<real>, off: nat)
    requires Fits(A, m, n, lda) && i < m && i + 1 < n && work != A
    requires off + (n - i - 1) <= work.Length
    modifies A, work
    ensures forall c :: i < c < n ==> Col(A, lda, m, n, c) == ApplyH(Tail(old(Col(A, lda, m, n, i)), i), t, old(Col(A, lda, m, n, c)))
    ensures forall c :: 0 <= c <= i ==> Col(A, lda, m, n, c) == old(Col(A, lda, m, n, c))
    ensures forall p :: 0 <= p < A.Length && !InMatrix(p, m, n, lda) ==> A[p] == old(A[p])
    ensures forall q :: 0 <= q < work.Length && !(off <= q < off + (n - i - 1)) ==> work[q] == old(work[q])
  {
    LarfProducts(A, lda, m, n, i, work, off);
    LarfUpdate(A, lda, m, n, i, t, work, off);
  }

  // ---------------------------------------------------------------- org2r

  /** The argument checks of lines 45-48 and 100-103; m, n and k cannot be
      negative in the unsigned size type. */
  predicate ArgsValid(m: Size, n: Size, k: Size, lda: Size)
  {
    n <= m && k <= n && m <= lda
  }

  /** Columns [k, n) become the unit vectors e_j of length m (lines 54-58).
      Nothing else changes. */
  method InitUnitColumns(A: array<real>, lda: nat, m: nat, n: nat, k: nat)
    requires Fits(A, m, n, lda) && k <= n <= m
    modifies A
    ensures forall j :: k <= j < n ==> Col(A, lda, m, n, j) == Unit(m, j)
    ensures forall j :: 0 <= j < k ==> Col(A, lda, m, n, j) == old(Col(A, lda, m, n, j))
    ensures forall p :: 0 <= p < A.Length && !InMatrix(p, m, n, lda) ==> A[p] == old(A[p])
  {
    var j := k;
    while j < n
      invariant k <= j <= n
      invariant forall d :: k <= d < j ==> Col(A, lda, m, n, d) == Unit(m, d)
      invariant forall d :: (0 <= d < k || j <= d < n) ==> Col(A, lda, m, n, d) == old(Col(A, lda, m, n, d))
      invariant forall p :: 0 <= p < A.Length && !InMatrix(p, m, n, lda) ==> A[p] == old(A[p])
    {
      ZeroColumn(A, lda, m, n, j, 0, m);
      SetCell(A, lda, m, n, j, j, 1.0);
      assert Col(A, lda, m, n, j) == Unit(m, j);
      j := j + 1;
    }
  }

  /** Lines 63-66: when there are columns right of i, A(i, i) is set to 1
      and larf applies H = I - t v v^T, with v the reflector vector of
      column i, to each of them. Column i keeps its entries off the
      diagonal; columns left of i do not change. */
  method ReflectTrailing(A: array<real>, lda: nat, m: nat, n: nat, i: nat, t: real, work: array<real>, off: nat)
    requires Fits(A, m, n, lda) && i < n <= m && work != A
    requires i + 1 < n ==> off + (n - i - 1) <= work.Length
    modifies A, work
    ensures forall r :: 0 <= r < m && r != i ==> Col(A, lda, m, n, i)[r] == old(Col(A, lda, m, n, i))[r]
    ensures forall c :: i < c < n ==>
      Col(A, lda, m, n, c) == ApplyH(ReflectorVector(old(Col(A, lda, m, n, i)), i), t, old(Col(A, lda, m, n, c)))
    ensures forall c :: 0 <= c < i ==> Col(A, lda, m, n, c) == old(Col(A, lda, m, n, c))
    ensures forall p :: 0 <= p < A.Length && !InMatrix(p, m, n, lda) ==> A[p] == old(A[p])
  {
    if i + 1 < n {
      SetCell(A, lda, m, n, i, i, 1.0);
      assert Tail(Col(A, lda, m, n, i), i) == ReflectorVector(old(Col(A, lda, m, n, i)), i);
      Larf(A, lda, m, n, i, t, work, off);
    }
  }

  /** Lines 67-73: rows below i of column i are scaled by -t, the diagonal
      becomes 1 - t and the rows above it become zero. Other columns do
      not change. */
  method FinishColumn(A: array<real>, lda: nat, m: nat, n: nat, i: nat, t: real)
    requires Fits(A, m, n, lda) && i < n <= m
    modifies A
    ensures forall r :: 0 <= r < m ==>
      Col(A, lda, m, n, i)[r] == if r < i then 0.0 else if r == i then 1.0 - t else -t * old(Col(A, lda, m, n, i))[r]
    ensures forall c :: 0 <= c < n && c != i ==> Col(A, lda, m, n, c) == old(Col(A, lda, m, n, c))
    ensures forall p :: 0 <= p < A.Length && !InMatrix(p, m, n, lda) ==> A[p] == old(A[p])
  {
    if i + 1 < m {
      ScaleColumn(A, lda, m, n, i, i + 1, -t);
    }
    SetCell(A, lda, m, n, i, i, 1.0 - t);
    ZeroColumn(A, lda, m, n, i, 0, i);
  }

  /** One iteration of the main loop (lines 63-73, 118-128): H_i, from the
      vector below the diagonal of column i and t = tau[i], is applied to
      every column right of i; column i becomes H_i e_i, that is 1 - t on
      the diagonal, zeros above it and -t times its old entries below it.
      Columns left of i do not change. */
  method Org2rStep(A: array<real>, lda: nat, m: nat, n: nat, i: nat, t: real, work: array<real>, off: nat)
    requires Fits(A, m, n, lda) && i < n <= m && work != A
    requires i + 1 < n ==> off + (n - i - 1) <= work.Length
    modifies A, work
    ensures Col(A, lda, m, n, i) == ApplyH(ReflectorVector(old(Col(A, lda, m, n, i)), i), t, Unit(m, i))
    ensures forall c :: i < c < n ==>
      Col(A, lda, m, n, c) == ApplyH(ReflectorVector(old(Col(A, lda, m, n, i)), i), t, old(Col(A, lda, m, n, c)))
    ensures forall c :: 0 <= c < i ==> Col(A, lda, m, n, c) == old(Col(A, lda, m, n, c))
    ensures forall p :: 0 <= p < A.Length && !InMatrix(p, m, n, lda) ==> A[p] == old(A[p])
  {
    ghost var col := Col(A, lda, m, n, i);
    ReflectTrailing(A, lda, m, n, i, t, work, off);
    ghost var mid := Col(A, lda, m, n, i);
    FinishColumn(A, lda, m, n, i, t);
    FinishedColumnIsReflectedUnit(col, mid, Col(A, lda, m, n, i), i, t);
  }

  /** The column left by lines 63-73 is H_i e_i: its entries below the
      diagonal were the reflector's (larf leaves them alone) and are scaled
      by -t, the diagonal is 1 - t and the entries above it are zero. */
  lemma FinishedColumnIsReflectedUnit(col: seq<real>, mid: seq<real>, after: seq<real>, i: nat, t: real)
    requires i < |col| == |mid| == |after|
    requires forall r :: 0 <= r < |col| && r != i ==> mid[r] == col[r]
    requires forall r :: 0 <= r < |col| ==>
      after[r] == if r < i then 0.0 else if r == i then 1.0 - t else -t * mid[r]
    ensures after == ApplyH(ReflectorVector(col, i), t, Unit(|col|, i))
  {
    ApplyHToOwnUnit(col, i, t);
    var y := ApplyH(ReflectorVector(col, i), t, Unit(|col|, i));
    assert |y| == |col|;
    forall r | 0 <= r < |col|
      ensures after[r] == y[r]
    {
      if i < r {
        assert after[r] == -t * col[r];
      }
    }
  }

  /** How many columns the main loop has still to process when its counter
      is i: none once i has wrapped to size_t(-1). */
  function Pending(i: Size): nat
  {
    if i == SIZE_MAX then 0 else i + 1
  }

  /** The main loop (lines 60-74, 115-129), with the corrected guard. On
      entry columns < k hold the reflectors A0 and columns >= k are unit
      vectors; the loop processes columns k-1 down to 0. Afterwards column
      c holds H_0 ... H_c e_c (only H_0 .. H_{k-1} exist). */
  method ApplyReflectors(A: array<real>, lda: nat, m: nat, n: nat, k: Size, tau: seq<real>, work: array<real>,
                         shiftWork: bool, ghost A0: seq<seq<real>>)
    requires Fits(A, m, n, lda) && k <= n <= m && work != A && n <= work.Length + 1
    requires |A0| == n && Columns(A0, m) && k <= |tau|
    requires forall c :: 0 <= c < k ==> Col(A, lda, m, n, c) == A0[c]
    requires forall c :: k <= c < n ==> Col(A, lda, m, n, c) == Unit(m, c)
    modifies A, work
    ensures forall c :: 0 <= c < n ==> Col(A, lda, m, n, c) == Prod(A0, tau, 0, if c + 1 < k then c + 1 else k, Unit(m, c))
    ensures forall p :: 0 <= p < A.Length && !InMatrix(p, m, n, lda) ==> A[p] == old(A[p])
  {
    var i: Size := Dec(k);
    // the source's guard is i > size_t(-1), which never holds
    while i != SIZE_MAX
      invariant Pending(i) <= k
      invariant forall c :: 0 <= c < Pending(i) ==> Col(A, lda, m, n, c) == A0[c]
      invariant forall c :: Pending(i) <= c < n ==>
        Col(A, lda, m, n, c) == Prod(A0, tau, Pending(i), if c + 1 < k then c + 1 else k, Unit(m, c))
      invariant forall p :: 0 <= p < A.Length && !InMatrix(p, m, n, lda) ==> A[p] == old(A[p])
      decreases Pending(i)
    {
      var off := if shiftWork then i else 0;
      label Before:
      Org2rStep(A, lda, m, n, i, tau[i], work, off);
      forall c | i <= c < n
        ensures Col(A, lda, m, n, c) == Prod(A0, tau, i, if c + 1 < k then c + 1 else k, Unit(m, c))
      {
        var hi := if c + 1 < k then c + 1 else k;
        assert old@Before(Col(A, lda, m, n, i)) == A0[i];
        if c > i {
          assert old@Before(Col(A, lda, m, n, c)) == Prod(A0, tau, i + 1, hi, Unit(m, c));
        }
        ProdPeel(A0, tau, i, hi, Unit(m, c));
      }
      assert Pending(Dec(i)) == i;
      i := Dec(i);
    }
  }

  /** The shared body of both overloads. shiftWork says whether larf is
      handed work + i (line 65) or work itself (line 120). With valid
      arguments, every column c < n of the result is column c of
      Q = H_0 ... H_{k-1} built from the reflectors in the original A; the
      padding rows between m and lda are never written. Invalid arguments
      are rejected before anything is written, and n == 0 returns at once. */
  method Org2rCore(m: Size, n: Size, k: Size, A: array<real>, lda: Size, tau: seq<real>, work: array<real>, shiftWork: bool)
    returns (ok: bool)
    requires work != A
    requires ArgsValid(m, n, k, lda) ==> Fits(A, m, n, lda) && k <= |tau| && n <= work.Length + 1
    modifies A, work
    ensures ok <==> ArgsValid(m, n, k, lda)
    ensures !ok || n == 0 ==> A[..] == old(A[..])
    ensures ok ==> forall c :: 0 <= c < n ==> Col(A, lda, m, n, c) == QColumn(old(Cols(A, lda, m, n)), tau, k, m, c)
    ensures forall p :: 0 <= p < A.Length && !InMatrix(p, m, n, lda) ==> A[p] == old(A[p])
  {
    if m < n || n < k || lda < m {
      return false;
    }
    ok := true;
    if n == 0 {
      return;
    }
    ghost var A0 := Cols(A, lda, m, n);
    InitUnitColumns(A, lda, m, n, k);
    ApplyReflectors(A, lda, m, n, k, tau, work, shiftWork, A0);
    forall c | 0 <= c < n
      ensures Col(A, lda, m, n, c) == QColumn(A0, tau, k, m, c)
    {
      QColumnFromLeadingReflectors(A0, tau, k, m, c);
    }
  }

  /** org2r with tau of the matrix's own scalar type (lines 31-77): larf is
      handed work + i. */
  method Org2r(m: Size, n: Size, k: Size, A: array<real>, lda: Size, tau: seq<real>, work: array<real>)
    returns (ok: bool)
    requires work != A
    requires ArgsValid(m, n, k, lda) ==> Fits(A, m, n, lda) && k <= |tau| && n <= work.Length + 1
    modifies A, work
    ensures ok <==> ArgsValid(m, n, k, lda)
    ensures !ok || n == 0 ==> A[..] == old(A[..])
    ensures ok ==> forall c :: 0 <= c < n ==> Col(A, lda, m, n, c) == QColumn(old(Cols(A, lda, m, n)), tau, k, m, c)
    ensures forall p :: 0 <= p < A.Length && !InMatrix(p, m, n, lda) ==> A[p] == old(A[p])
  {
    ok := Org2rCore(m, n, k, A, lda, tau, work, true);
  }

  /** org2r with real tau (lines 86-132): larf is handed work itself. */
  method Org2rRealTau(m: Size, n: Size, k: Size, A: array<real>, lda: Size, tau: seq<real>, work: array<real>)
    returns (ok: bool)
    requires work != A
    requires ArgsValid(m, n, k, lda) ==> Fits(A, m, n, lda) && k <= |tau| && n <= work.Length + 1
    modifies A, work
    ensures ok <==> ArgsValid(m, n, k, lda)
    ensures !ok || n == 0 ==> A[..] == old(A[..])
    ensures ok ==> forall c :: 0 <= c < n ==> Col(A, lda, m, n, c) == QColumn(old(Cols(A, lda, m, n)), tau, k, m, c)
    ensures forall p :: 0 <= p < A.Length && !InMatrix(p, m, n, lda) ==> A[p] == old(A[p])
  {
    ok := Org2rCore(m, n, k, A, lda, tau, work, false);
  }

  /** The allocating wrapper (lines 153-162): a work vector of n - 1 entries
      (none when n == 0), then org2r. */
  method Org2rAllocating(m: Size, n: Size, k: Size, A: array<real>, lda: Size, tau: seq<real>)
    returns (ok: bool)
    requires ArgsValid(m, n, k, lda) ==> Fits(A, m, n, lda) && k <= |tau|
    modifies A
    ensures ok <==> ArgsValid(m, n, k, lda)
    ensures !ok || n == 0 ==> A[..] == old(A[..])
    ensures ok ==> forall c :: 0 <= c < n ==> Col(A, lda, m, n, c) == QColumn(old(Cols(A, lda, m, n)), tau, k, m, c)
    ensures forall p :: 0 <= p < A.Length && !InMatrix(p, m, n, lda) ==> A[p] == old(A[p])
  {
    var work := new real[if n > 0 then n - 1 else 0];
    ok := Org2r(m, n, k, A, lda, tau, work);
  }
}
