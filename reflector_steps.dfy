/** The in-place reflector applications of the sweep, on a matrix stored
    as `array2<real>`. Each step states the exact new value of the strip
    it updates and that every other entry keeps its value. */
module ReflectorSteps {
  import opened Reflector

  /** Apply [t, v1, v2] from the right to rows r0..r1-1 of columns c..c+2
      (M := M*H restricted to those rows). Also the accumulation of a
      reflector into U2, with r0 == 0 and r1 == nrows(U2). */
  method ApplyRight3(M: array2<real>, r0: nat, r1: nat, c: nat, t: real, v1: real, v2: real)
    requires r0 <= r1 <= M.Length0 && c + 3 <= M.Length1
    modifies M
    ensures forall j :: r0 <= j < r1 ==>
      (M[j, c], M[j, c + 1], M[j, c + 2]) == Reflect3(t, v1, v2, (old(M[j, c]), old(M[j, c + 1]), old(M[j, c + 2])))
    ensures forall i, j :: 0 <= i < M.Length0 && 0 <= j < M.Length1 && !(r0 <= i < r1 && c <= j < c + 3) ==> M[i, j] == old(M[i, j])
  {
    var j := r0;
    while j < r1
      invariant r0 <= j <= r1
      invariant forall jj :: r0 <= jj < j ==>
        (M[jj, c], M[jj, c + 1], M[jj, c + 2]) == Reflect3(t, v1, v2, (old(M[jj, c]), old(M[jj, c + 1]), old(M[jj, c + 2])))
      invariant forall i, jj :: 0 <= i < M.Length0 && 0 <= jj < M.Length1 && !(r0 <= i < j && c <= jj < c + 3) ==> M[i, jj] == old(M[i, jj])
    {
      var y := Reflect3(t, v1, v2, (M[j, c], M[j, c + 1], M[j, c + 2]));
      M[j, c], M[j, c + 1], M[j, c + 2] := y.0, y.1, y.2;
      j := j + 1;
    }
  }

  /** Apply [t, v1, v2] from the left to rows r..r+2 of columns c0..c1-1
      (M := H*M restricted to those columns). */
  method ApplyLeft3(M: array2<real>, r: nat, c0: nat, c1: nat, t: real, v1: real, v2: real)
    requires r + 3 <= M.Length0 && c0 <= c1 <= M.Length1
    modifies M
    ensures forall j :: c0 <= j < c1 ==>
      (M[r, j], M[r + 1, j], M[r + 2, j]) == Reflect3(t, v1, v2, (old(M[r, j]), old(M[r + 1, j]), old(M[r + 2, j])))
    ensures forall i, j :: 0 <= i < M.Length0 && 0 <= j < M.Length1 && !(r <= i < r + 3 && c0 <= j < c1) ==> M[i, j] == old(M[i, j])
  {
    var j := c0;
    while j < c1
      invariant c0 <= j <= c1
      invariant forall jj :: c0 <= jj < j ==>
        (M[r, jj], M[r + 1, jj], M[r + 2, jj]) == Reflect3(t, v1, v2, (old(M[r, jj]), old(M[r + 1, jj]), old(M[r + 2, jj])))
      invariant forall i, jj :: 0 <= i < M.Length0 && 0 <= jj < M.Length1 && !(r <= i < r + 3 && c0 <= jj < j) ==> M[i, jj] == old(M[i, jj])
    {
      var y := Reflect3(t, v1, v2, (M[r, j], M[r + 1, j], M[r + 2, j]));
      M[r, j], M[r + 1, j], M[r + 2, j] := y.0, y.1, y.2;
      j := j + 1;
    }
  }

  /** Apply the order-2 reflector [t, v1] from the right to rows r0..r1-1 of columns c, c+1. */
  method ApplyRight2(M: array2<real>, r0: nat, r1: nat, c: nat, t: real, v1: real)
    requires r0 <= r1 <= M.Length0 && c + 2 <= M.Length1
    modifies M
    ensures forall j :: r0 <= j < r1 ==>
      (M[j, c], M[j, c + 1]) == Reflect2(t, v1, (old(M[j, c]), old(M[j, c + 1])))
    ensures forall i, j :: 0 <= i < M.Length0 && 0 <= j < M.Length1 && !(r0 <= i < r1 && c <= j < c + 2) ==> M[i, j] == old(M[i, j])
  {
    var j := r0;
    while j < r1
      invariant r0 <= j <= r1
      invariant forall jj :: r0 <= jj < j ==>
        (M[jj, c], M[jj, c + 1]) == Reflect2(t, v1, (old(M[jj, c]), old(M[jj, c + 1])))
      invariant forall i, jj :: 0 <= i < M.Length0 && 0 <= jj < M.Length1 && !(r0 <= i < j && c <= jj < c + 2) ==> M[i, jj] == old(M[i, jj])
    {
      var y := Reflect2(t, v1, (M[j, c], M[j, c + 1]));
      M[j, c], M[j, c + 1] := y.0, y.1;
      j := j + 1;
    }
  }

  /** Apply the order-2 reflector [t, v1] from the left to rows r, r+1 of columns c0..c1-1. */
  method ApplyLeft2(M: array2<real>, r: nat, c0: nat, c1: nat, t: real, v1: real)
    requires r + 2 <= M.Length0 && c0 <= c1 <= M.Length1
    modifies M
    ensures forall j :: c0 <= j < c1 ==>
      (M[r, j], M[r + 1, j]) == Reflect2(t, v1, (old(M[r, j]), old(M[r + 1, j])))
    ensures forall i, j :: 0 <= i < M.Length0 && 0 <= j < M.Length1 && !(r <= i < r + 2 && c0 <= j < c1) ==> M[i, j] == old(M[i, j])
  {
    var j := c0;
    while j < c1
      invariant c0 <= j <= c1
      invariant forall jj :: c0 <= jj < j ==>
        (M[r, jj], M[r + 1, jj]) == Reflect2(t, v1, (old(M[r, jj]), old(M[r + 1, jj])))
      invariant forall i, jj :: 0 <= i < M.Length0 && 0 <= jj < M.Length1 && !(r <= i < r + 2 && c0 <= jj < j) ==> M[i, jj] == old(M[i, jj])
    {
      var y := Reflect2(t, v1, (M[r, j], M[r + 1, j]));
      M[r, j], M[r + 1, j] := y.0, y.1;
      j := j + 1;
    }
  }
}
