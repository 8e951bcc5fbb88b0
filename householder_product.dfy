/** The mathematics org2r implements, over exact reals: a Householder
    reflector H = I - t v v^T whose vector v is stored below the diagonal
    of column j (implicit 1 at row j, zeros above), and the matrix
    Q = H_0 H_1 ... H_{k-1} whose leading columns org2r writes into A.
    Vectors are `seq<real>` of length m; a matrix is a sequence of its
    columns. */
module HouseholderProduct {

  /** Sum over lo <= r < hi of v[r] * x[r]. */
  function DotFrom(v: seq<real>, x: seq<real>, lo: nat, hi: nat): real
    requires lo <= hi <= |v| && hi <= |x|
    decreases hi - lo
  {
    if lo == hi then 0.0 else DotFrom(v, x, lo, hi - 1) + v[hi - 1] * x[hi - 1]
  }

  /** v^T x. */
  function Dot(v: seq<real>, x: seq<real>): real
    requires |v| == |x|
  {
    DotFrom(v, x, 0, |v|)
  }

  /** e_c, the c-th column of the m x m identity. */
  function Unit(m: nat, c: nat): seq<real>
  {
    seq(m, r => if r == c then 1.0 else 0.0)
  }

  /** The reflector vector kept in column j of A: zeros above row j, the
      implicit 1 at row j, and the stored entries below. */
  function ReflectorVector(col: seq<real>, j: nat): seq<real>
  {
    seq(|col|, r requires 0 <= r < |col| => if r < j then 0.0 else if r == j then 1.0 else col[r])
  }

  /** H x = x - t (v^T x) v. */
  function ApplyH(v: seq<real>, t: real, x: seq<real>): (y: seq<real>)
    requires |v| == |x|
    ensures |y| == |x|
  {
    var d := Dot(v, x);
    seq(|x|, r requires 0 <= r < |x| => x[r] - t * d * v[r])
  }

  /** Every column of A0 has m rows. */
  predicate Columns(A0: seq<seq<real>>, m: nat)
  {
    forall j :: 0 <= j < |A0| ==> |A0[j]| == m
  }

  /** H_lo H_{lo+1} ... H_{hi-1} x, where H_j = I - tau[j] v_j v_j^T and v_j
      is the reflector vector of column j of A0. */
  function Prod(A0: seq<seq<real>>, tau: seq<real>, lo: nat, hi: nat, x: seq<real>): (y: seq<real>)
    requires hi <= |A0| && hi <= |tau| && Columns(A0, |x|)
    ensures |y| == |x|
    decreases hi - lo
  {
    if lo >= hi then x
    else ApplyH(ReflectorVector(A0[lo], lo), tau[lo], Prod(A0, tau, lo + 1, hi, x))
  }

  /** Column c of Q = H_0 H_1 ... H_{k-1}. */
  function QColumn(A0: seq<seq<real>>, tau: seq<real>, k: nat, m: nat, c: nat): (q: seq<real>)
    requires k <= |A0| && k <= |tau| && Columns(A0, m)
    ensures |q| == m
  {
    Prod(A0, tau, 0, k, Unit(m, c))
  }

  /** t and v define an orthogonal reflector: t == 0 (H = I) or t v^T v == 2,
      which is what larfg produces in exact arithmetic. */
  predicate IsReflector(v: seq<real>, t: real)
  {
    t == 0.0 || t * Dot(v, v) == 2.0
  }

  // ---------------------------------------------------------------- dot products

  lemma {:induction false} DotFromUnit(v: seq<real>, m: nat, c: nat, hi: nat)
    requires |v| == m && hi <= m
    ensures DotFrom(v, Unit(m, c), 0, hi) == if c < hi then v[c] else 0.0
  {
    if hi > 0 {
      DotFromUnit(v, m, c, hi - 1);
    }
  }

  /** v^T e_c picks out v[c]. */
  lemma DotUnit(v: seq<real>, c: nat)
    requires c < |v|
    ensures Dot(v, Unit(|v|, c)) == v[c]
  {
    DotFromUnit(v, |v|, c, |v|);
  }

  lemma {:induction false} DotFromSymmetric(v: seq<real>, x: seq<real>, hi: nat)
    requires hi <= |v| && hi <= |x|
    ensures DotFrom(v, x, 0, hi) == DotFrom(x, v, 0, hi)
  {
    if hi > 0 {
      DotFromSymmetric(v, x, hi - 1);
    }
  }

  /** v^T x == x^T v. */
  lemma DotSymmetric(v: seq<real>, x: seq<real>)
    requires |v| == |x|
    ensures Dot(v, x) == Dot(x, v)
  {
    DotFromSymmetric(v, x, |v|);
  }

  /** The sum of (x - a v) z is linear in the shift: x^T z - a v^T z. */
  lemma {:induction false} DotFromShift(p: seq<real>, x: seq<real>, v: seq<real>, z: seq<real>, a: real, hi: nat)
    requires hi <= |p| && hi <= |x| && hi <= |v| && hi <= |z|
    requires forall r :: 0 <= r < hi ==> p[r] == x[r] - a * v[r]
    ensures DotFrom(p, z, 0, hi) == DotFrom(x, z, 0, hi) - a * DotFrom(v, z, 0, hi)
  {
    if hi > 0 {
      DotFromShift(p, x, v, z, a, hi - 1);
      var r := hi - 1;
      assert p[r] * z[r] == x[r] * z[r] - a * (v[r] * z[r]);
    }
  }

  // ---------------------------------------------------------------- one reflector

  /** What one iteration of org2r leaves in column i: H_i e_i, which is 1 - t
      on the diagonal, zero above it, and -t times the stored vector below. */
  lemma ApplyHToOwnUnit(col: seq<real>, i: nat, t: real)
    requires i < |col|
    ensures var y := ApplyH(ReflectorVector(col, i), t, Unit(|col|, i));
      && y[i] == 1.0 - t
      && (forall r :: 0 <= r < i ==> y[r] == 0.0)
      && (forall r :: i < r < |col| ==> y[r] == -t * col[r])
  {
    var v := ReflectorVector(col, i);
    DotUnit(v, i);
  }

  /** A reflector whose vector starts below row c leaves e_c alone. */
  lemma ApplyHFixesUnitAbove(col: seq<real>, j: nat, t: real, c: nat)
    requires c < j && c < |col|
    ensures ApplyH(ReflectorVector(col, j), t, Unit(|col|, c)) == Unit(|col|, c)
  {
    DotUnit(ReflectorVector(col, j), c);
  }

  /** The scalar identity behind orthogonality: (dxy - t dy dx) - t dx (dy - t dy dvv) == dxy
      when t == 0 or t dvv == 2. */
  lemma ReflectorCancels(xq: real, vq: real, dxy: real, dx: real, dy: real, dvv: real, t: real)
    requires t == 0.0 || t * dvv == 2.0
    requires xq == dxy - t * dy * dx && vq == dy - t * dy * dvv
    ensures dxy == xq - t * dx * vq
  {
    assert t * dx * (t * dy * dvv) == (t * dvv) * (t * dx * dy);
    assert t * dy * dx + t * dx * dy == 2.0 * (t * dx * dy);
  }

  /** The entries of H x, in the form the linear expansion takes them. */
  lemma ApplyHEntries(v: seq<real>, t: real, x: seq<real>, a: real)
    requires |v| == |x| && a == t * Dot(v, x)
    ensures forall r :: 0 <= r < |x| ==> ApplyH(v, t, x)[r] == x[r] - a * v[r]
  {
  }

  /** (H x)^T z == x^T z - a v^T z, with a = t v^T x. */
  lemma ApplyHDotLeft(v: seq<real>, t: real, x: seq<real>, z: seq<real>, a: real)
    requires |v| == |x| == |z| && a == t * Dot(v, x)
    ensures Dot(ApplyH(v, t, x), z) == Dot(x, z) - a * Dot(v, z)
  {
    ApplyHEntries(v, t, x, a);
    DotFromShift(ApplyH(v, t, x), x, v, z, a, |x|);
  }

  /** x^T (H y) == x^T y - t (v^T y)(v^T x). */
  lemma DotWithApplyH(v: seq<real>, t: real, x: seq<real>, y: seq<real>)
    requires |v| == |x| == |y|
    ensures Dot(x, ApplyH(v, t, y)) == Dot(x, y) - t * Dot(v, y) * Dot(v, x)
  {
    ApplyHDotLeft(v, t, y, x, t * Dot(v, y));
    DotSymmetric(x, ApplyH(v, t, y));
    DotSymmetric(y, x);
  }

  /** x^T y == x^T (H y) - t (v^T x)(v^T H y) when H is orthogonal. */
  lemma ApplyHCrossTerm(v: seq<real>, t: real, x: seq<real>, y: seq<real>)
    requires |v| == |x| == |y| && IsReflector(v, t)
    ensures Dot(x, y) == Dot(x, ApplyH(v, t, y)) - t * Dot(v, x) * Dot(v, ApplyH(v, t, y))
  {
    DotWithApplyH(v, t, x, y);
    DotAfterApplyH(v, t, y);
    ReflectorCancels(Dot(x, ApplyH(v, t, y)), Dot(v, ApplyH(v, t, y)), Dot(x, y), Dot(v, x), Dot(v, y), Dot(v, v), t);
  }

  /** An orthogonal reflector preserves dot products. */
  lemma ApplyHPreservesDot(v: seq<real>, t: real, x: seq<real>, y: seq<real>)
    requires |v| == |x| == |y| && IsReflector(v, t)
    ensures Dot(ApplyH(v, t, x), ApplyH(v, t, y)) == Dot(x, y)
  {
    ApplyHDotLeft(v, t, x, ApplyH(v, t, y), t * Dot(v, x));
    ApplyHCrossTerm(v, t, x, y);
  }

  /** The scalar identity behind the involution: t dx + t (dx - t dx dvv) == 0
      when t == 0 or t dvv == 2. */
  lemma ReflectorSquares(dx: real, t: real, dvv: real)
    requires t == 0.0 || t * dvv == 2.0
    ensures t * dx + t * (dx - t * dx * dvv) == 0.0
  {
    assert t * (dx - t * dx * dvv) == t * dx - (t * dvv) * (t * dx);
  }

  /** v^T (H x) == v^T x - t (v^T x)(v^T v). */
  lemma DotAfterApplyH(v: seq<real>, t: real, x: seq<real>)
    requires |v| == |x|
    ensures Dot(v, ApplyH(v, t, x)) == Dot(v, x) - t * Dot(v, x) * Dot(v, v)
  {
    ApplyHDotLeft(v, t, x, v, t * Dot(v, x));
    DotSymmetric(v, ApplyH(v, t, x));
    DotSymmetric(x, v);
  }

  lemma TwoUpdatesCancel(xr: real, vr: real, a: real, b: real)
    requires a + b == 0.0
    ensures xr - a * vr - b * vr == xr
  {
    assert a * vr + b * vr == (a + b) * vr;
  }

  /** An orthogonal reflector is its own inverse. */
  lemma ApplyHInvolution(v: seq<real>, t: real, x: seq<real>)
    requires |v| == |x| && IsReflector(v, t)
    ensures ApplyH(v, t, ApplyH(v, t, x)) == x
  {
    var y := ApplyH(v, t, x);
    var dx := Dot(v, x);
    DotAfterApplyH(v, t, x);
    ReflectorSquares(dx, t, Dot(v, v));
    var dy := Dot(v, y);
    assert t * dx + t * dy == 0.0;
    var z := ApplyH(v, t, y);
    forall r | 0 <= r < |x|
      ensures z[r] == x[r]
    {
      assert y[r] == x[r] - t * dx * v[r];
      assert z[r] == y[r] - t * dy * v[r];
      TwoUpdatesCancel(x[r], v[r], t * dx, t * dy);
    }
  }

  // ---------------------------------------------------------------- the product

  /** Reflectors H_j with j > c leave e_c alone, so H_lo ... H_{hi-1} e_c == e_c
      whenever c < lo. */
  lemma {:induction false} ProdFixesUnit(A0: seq<seq<real>>, tau: seq<real>, lo: nat, hi: nat, m: nat, c: nat)
    requires hi <= |A0| && hi <= |tau| && Columns(A0, m) && c < lo && c < m
    ensures Prod(A0, tau, lo, hi, Unit(m, c)) == Unit(m, c)
    decreases hi - lo
  {
    if lo < hi {
      ProdFixesUnit(A0, tau, lo + 1, hi, m, c);
      ApplyHFixesUnitAbove(A0[lo], lo, tau[lo], c);
    }
  }

  /** The outermost reflector of a non-empty product. */
  lemma ProdPeel(A0: seq<seq<real>>, tau: seq<real>, lo: nat, hi: nat, x: seq<real>)
    requires lo < hi <= |A0| && hi <= |tau| && Columns(A0, |x|)
    ensures Prod(A0, tau, lo, hi, x) == ApplyH(ReflectorVector(A0[lo], lo), tau[lo], Prod(A0, tau, lo + 1, hi, x))
  {
  }

  /** H_lo ... H_{hi-1} x == (H_lo ... H_{mid-1}) (H_mid ... H_{hi-1} x). */
  lemma {:induction false} ProdSplit(A0: seq<seq<real>>, tau: seq<real>, lo: nat, mid: nat, hi: nat, x: seq<real>)
    requires lo <= mid <= hi && hi <= |A0| && hi <= |tau| && Columns(A0, |x|)
    ensures Prod(A0, tau, lo, hi, x) == Prod(A0, tau, lo, mid, Prod(A0, tau, mid, hi, x))
    decreases mid - lo
  {
    if lo < mid {
      ProdSplit(A0, tau, lo + 1, mid, hi, x);
    }
  }

  /** Column c of Q only needs the reflectors H_0 .. H_c: the later ones fix
      e_c. This is why org2r can finish column c with the reflectors it
      applies after initialising it. */
  lemma QColumnFromLeadingReflectors(A0: seq<seq<real>>, tau: seq<real>, k: nat, m: nat, c: nat)
    requires k <= |A0| && k <= |tau| && Columns(A0, m) && c < m
    ensures var hi := if c + 1 < k then c + 1 else k;
      Prod(A0, tau, 0, hi, Unit(m, c)) == QColumn(A0, tau, k, m, c)
  {
    if c + 1 < k {
      ProdSplit(A0, tau, 0, c + 1, k, Unit(m, c));
      ProdFixesUnit(A0, tau, c + 1, k, m, c);
    }
  }

  /** A product of orthogonal reflectors preserves dot products. */
  lemma {:induction false} ProdPreservesDot(A0: seq<seq<real>>, tau: seq<real>, lo: nat, hi: nat, x: seq<real>, y: seq<real>)
    requires hi <= |A0| && hi <= |tau| && |x| == |y| && Columns(A0, |x|)
    requires forall j :: lo <= j < hi ==> IsReflector(ReflectorVector(A0[j], j), tau[j])
    ensures Dot(Prod(A0, tau, lo, hi, x), Prod(A0, tau, lo, hi, y)) == Dot(x, y)
    decreases hi - lo
  {
    if lo < hi {
      ProdPreservesDot(A0, tau, lo + 1, hi, x, y);
      ApplyHPreservesDot(ReflectorVector(A0[lo], lo), tau[lo], Prod(A0, tau, lo + 1, hi, x), Prod(A0, tau, lo + 1, hi, y));
    }
  }

  lemma {:induction false} DotFromUnits(m: nat, c: nat, d: nat, hi: nat)
    requires hi <= m
    ensures DotFrom(Unit(m, c), Unit(m, d), 0, hi) == if c == d && c < hi then 1.0 else 0.0
  {
    if hi > 0 {
      DotFromUnits(m, c, d, hi - 1);
    }
  }

  /** When every tau_j, v_j is an orthogonal reflector, the columns of Q are
      orthonormal: Q is "a matrix with orthogonal columns". */
  lemma QColumnsOrthonormal(A0: seq<seq<real>>, tau: seq<real>, k: nat, m: nat, c: nat, d: nat)
    requires k <= |A0| && k <= |tau| && Columns(A0, m) && c < m && d < m
    requires forall j :: 0 <= j < k ==> IsReflector(ReflectorVector(A0[j], j), tau[j])
    ensures Dot(QColumn(A0, tau, k, m, c), QColumn(A0, tau, k, m, d)) == if c == d then 1.0 else 0.0
  {
    ProdPreservesDot(A0, tau, 0, k, Unit(m, c), Unit(m, d));
    DotFromUnits(m, c, d, m);
  }
}
