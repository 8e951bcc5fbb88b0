/** Exact-real models of the dense kernels the sweep delegates its bulk
    work to: laset (identity initialisation), gemm (matrix product into a
    workspace) and lacpy (copy back). Matrices are `array2<real>` indexed
    [row, column]; a slice is given by its first row and column and its
    extent. */
module DenseBlas {

  /** Sum over l < len of X[l, i] * Y[y0 + l, j]: entry (i, j) of X^T * Y
      where Y's slice starts at row y0. */
  ghost function ColDot(X: array2<real>, i: nat, Y: array2<real>, y0: nat, j: nat, len: nat): real
    requires len <= X.Length0 && i < X.Length1
    requires y0 + len <= Y.Length0 && j < Y.Length1
    reads X, Y
  {
    if len == 0 then 0.0
    else ColDot(X, i, Y, y0, j, len - 1) + X[len - 1, i] * Y[y0 + len - 1, j]
  }

  /** Sum over l < len of Y[r, c0 + l] * X[l, j]: entry (r, j) of Y * X
      where Y's slice starts at column c0. */
  ghost function RowDot(Y: array2<real>, r: nat, c0: nat, X: array2<real>, j: nat, len: nat): real
    requires r < Y.Length0 && c0 + len <= Y.Length1
    requires len <= X.Length0 && j < X.Length1
    reads X, Y
  {
    if len == 0 then 0.0
    else RowDot(Y, r, c0, X, j, len - 1) + Y[r, c0 + len - 1] * X[len - 1, j]
  }

  /** laset(General, 0, 1, U[0..nb, 0..nb]): the leading nb x nb block becomes the identity. */
  method SetIdentity(U: array2<real>, nb: nat)
    requires nb <= U.Length0 && nb <= U.Length1
    modifies U
    ensures forall i, j :: 0 <= i < nb && 0 <= j < nb ==> U[i, j] == if i == j then 1.0 else 0.0
    ensures forall i, j :: 0 <= i < U.Length0 && 0 <= j < U.Length1 && !(i < nb && j < nb) ==> U[i, j] == old(U[i, j])
  {
    var j := 0;
    while j < nb
      invariant 0 <= j <= nb
      invariant forall i, jj :: 0 <= i < nb && 0 <= jj < j ==> U[i, jj] == if i == jj then 1.0 else 0.0
      invariant forall i, jj :: 0 <= i < U.Length0 && 0 <= jj < U.Length1 && !(i < nb && jj < j) ==> U[i, jj] == old(U[i, jj])
    {
      var i := 0;
      while i < nb
        invariant 0 <= i <= nb
        invariant forall ii, jj :: 0 <= ii < nb && 0 <= jj < j ==> U[ii, jj] == if ii == jj then 1.0 else 0.0
        invariant forall ii :: 0 <= ii < i ==> U[ii, j] == if ii == j then 1.0 else 0.0
        invariant forall ii, jj :: 0 <= ii < U.Length0 && 0 <= jj < U.Length1 && !(ii < nb && jj < j) && !(ii < i && jj == j) ==> U[ii, jj] == old(U[ii, jj])
      {
        U[i, j] := if i == j then 1.0 else 0.0;
        i := i + 1;
      }
      j := j + 1;
    }
  }

  /** gemm(ConjTrans, NoTrans, 1, U2, A_slice, 0, W): W[0..nb, 0..cols] := U2^T * A[r0..r0+nb, c0..c0+cols]. */
  method GemmTransLeft(U: array2<real>, nb: nat, A: array2<real>, r0: nat, c0: nat, cols: nat, W: array2<real>)
    requires W != A && W != U
    requires nb <= U.Length0 && nb <= U.Length1
    requires r0 + nb <= A.Length0 && c0 + cols <= A.Length1
    requires nb <= W.Length0 && cols <= W.Length1
    modifies W
    ensures forall i, j :: 0 <= i < nb && 0 <= j < cols ==> W[i, j] == ColDot(U, i, A, r0, c0 + j, nb)
  {
    var j := 0;
    while j < cols
      invariant 0 <= j <= cols
      invariant forall i, jj :: 0 <= i < nb && 0 <= jj < j ==> W[i, jj] == ColDot(U, i, A, r0, c0 + jj, nb)
    {
      var i := 0;
      while i < nb
        invariant 0 <= i <= nb
        invariant forall ii, jj :: 0 <= ii < nb && 0 <= jj < j ==> W[ii, jj] == ColDot(U, ii, A, r0, c0 + jj, nb)
        invariant forall ii :: 0 <= ii < i ==> W[ii, j] == ColDot(U, ii, A, r0, c0 + j, nb)
      {
        var sum := 0.0;
        var l := 0;
        while l < nb
          invariant 0 <= l <= nb
          invariant sum == ColDot(U, i, A, r0, c0 + j, l)
        {
          sum := sum + U[l, i] * A[r0 + l, c0 + j];
          l := l + 1;
        }
        W[i, j] := sum;
        i := i + 1;
      }
      j := j + 1;
    }
  }

  /** gemm(NoTrans, NoTrans, 1, M_slice, U2, 0, W): W[0..rows, 0..nb] := M[r0..r0+rows, c0..c0+nb] * U2. */
  method GemmRight(M: array2<real>, r0: nat, rows: nat, c0: nat, U: array2<real>, nb: nat, W: array2<real>)
    requires W != M && W != U
    requires nb <= U.Length0 && nb <= U.Length1
    requires r0 + rows <= M.Length0 && c0 + nb <= M.Length1
    requires rows <= W.Length0 && nb <= W.Length1
    modifies W
    ensures forall i, j :: 0 <= i < rows && 0 <= j < nb ==> W[i, j] == RowDot(M, r0 + i, c0, U, j, nb)
  {
    var j := 0;
    while j < nb
      invariant 0 <= j <= nb
      invariant forall i, jj :: 0 <= i < rows && 0 <= jj < j ==> W[i, jj] == RowDot(M, r0 + i, c0, U, jj, nb)
    {
      var i := 0;
      while i < rows
        invariant 0 <= i <= rows
        invariant forall ii, jj :: 0 <= ii < rows && 0 <= jj < j ==> W[ii, jj] == RowDot(M, r0 + ii, c0, U, jj, nb)
        invariant forall ii :: 0 <= ii < i ==> W[ii, j] == RowDot(M, r0 + ii, c0, U, j, nb)
      {
        var sum := 0.0;
        var l := 0;
        while l < nb
          invariant 0 <= l <= nb
          invariant sum == RowDot(M, r0 + i, c0, U, j, l)
        {
          sum := sum + M[r0 + i, c0 + l] * U[l, j];
          l := l + 1;
        }
        W[i, j] := sum;
        i := i + 1;
      }
      j := j + 1;
    }
  }

  /** lacpy(General, W_slice, M_slice): M[r0..r0+rows, c0..c0+cols] := W[0..rows, 0..cols]. */
  method CopyBack(W: array2<real>, M: array2<real>, r0: nat, c0: nat, rows: nat, cols: nat)
    requires W != M
    requires rows <= W.Length0 && cols <= W.Length1
    requires r0 + rows <= M.Length0 && c0 + cols <= M.Length1
    modifies M
    ensures forall i, j :: r0 <= i < r0 + rows && c0 <= j < c0 + cols ==> M[i, j] == W[i - r0, j - c0]
    ensures forall i, j :: 0 <= i < M.Length0 && 0 <= j < M.Length1 && !(r0 <= i < r0 + rows && c0 <= j < c0 + cols) ==> M[i, j] == old(M[i, j])
  {
    var j := 0;
    while j < cols
      invariant 0 <= j <= cols
      invariant forall i, jj :: r0 <= i < r0 + rows && c0 <= jj < c0 + j ==> M[i, jj] == W[i - r0, jj - c0]
      invariant forall i, jj :: 0 <= i < M.Length0 && 0 <= jj < M.Length1 && !(r0 <= i < r0 + rows && c0 <= jj < c0 + j) ==> M[i, jj] == old(M[i, jj])
    {
      var i := 0;
      while i < rows
        invariant 0 <= i <= rows
        invariant forall ii, jj :: r0 <= ii < r0 + rows && c0 <= jj < c0 + j ==> M[ii, jj] == W[ii - r0, jj - c0]
        invariant forall ii :: 0 <= ii < i ==> M[r0 + ii, c0 + j] == W[ii, j]
        invariant forall ii, jj :: 0 <= ii < M.Length0 && 0 <= jj < M.Length1 && !(r0 <= ii < r0 + rows && c0 <= jj < c0 + j) && !(r0 <= ii < r0 + i && jj == c0 + j) ==> M[ii, jj] == old(M[ii, jj])
      {
        M[r0 + i, c0 + j] := W[i, j];
        i := i + 1;
      }
      j := j + 1;
    }
  }

  /** Horizontal multiply: A[r0..r0+nb, c0..c1] := U2^T * A[r0..r0+nb, c0..c1],
      through the workspace W; nothing else in A changes. */
  method MultiplyFromLeft(U: array2<real>, nb: nat, A: array2<real>, r0: nat, c0: nat, c1: nat, W: array2<real>)
    requires W != A && W != U && U != A
    requires nb <= U.Length0 && nb <= U.Length1
    requires r0 + nb <= A.Length0 && c0 <= c1 <= A.Length1
    requires nb <= W.Length0 && c1 - c0 <= W.Length1
    modifies A, W
    ensures forall i, j :: r0 <= i < r0 + nb && c0 <= j < c1 ==> A[i, j] == old(ColDot(U, i - r0, A, r0, j, nb))
    ensures forall i, j :: 0 <= i < A.Length0 && 0 <= j < A.Length1 && !(r0 <= i < r0 + nb && c0 <= j < c1) ==> A[i, j] == old(A[i, j])
    ensures forall i, j :: 0 <= i < U.Length0 && 0 <= j < U.Length1 ==> U[i, j] == old(U[i, j])
  {
    GemmTransLeft(U, nb, A, r0, c0, c1 - c0, W);
    assert forall i, j :: 0 <= i < nb && 0 <= j < c1 - c0 ==> W[i, j] == old(ColDot(U, i, A, r0, c0 + j, nb));
    CopyBack(W, A, r0, c0, nb, c1 - c0);
  }

  /** Vertical multiply: M[r0..r1, c0..c0+nb] := M[r0..r1, c0..c0+nb] * U2,
      through the workspace W; nothing else in M changes. Used for A and for Z. */
  method MultiplyFromRight(M: array2<real>, r0: nat, r1: nat, c0: nat, U: array2<real>, nb: nat, W: array2<real>)
    requires W != M && W != U && U != M
    requires nb <= U.Length0 && nb <= U.Length1
    requires r0 <= r1 <= M.Length0 && c0 + nb <= M.Length1
    requires r1 - r0 <= W.Length0 && nb <= W.Length1
    modifies M, W
    ensures forall i, j :: r0 <= i < r1 && c0 <= j < c0 + nb ==> M[i, j] == old(RowDot(M, i, c0, U, j - c0, nb))
    ensures forall i, j :: 0 <= i < M.Length0 && 0 <= j < M.Length1 && !(r0 <= i < r1 && c0 <= j < c0 + nb) ==> M[i, j] == old(M[i, j])
    ensures forall i, j :: 0 <= i < U.Length0 && 0 <= j < U.Length1 ==> U[i, j] == old(U[i, j])
  {
    GemmRight(M, r0, r1 - r0, c0, U, nb, W);
    assert forall i, j :: 0 <= i < r1 - r0 && 0 <= j < nb ==> W[i, j] == old(RowDot(M, r0 + i, c0, U, j, nb));
    CopyBack(W, M, r0, c0, r1 - r0, nb);
  }

}
