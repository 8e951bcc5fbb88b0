/** Elementary reflectors over exact reals, and the small kernels of the
    sweep whose implementation is not part of this model.

    A reflector of order 3 is stored as the triple [t, v1, v2]; it stands
    for H = I - t*w*w^T with w = [1, v1, v2]. Because the model is real,
    conjugation is the identity and the left and right applications use
    the same three-term update. */
module Reflector {

  /** One shift value. The sweep only passes shifts on to the kernels. */
  datatype Shift = Shift(re: real, im: real)

  /** H*x for the order-3 reflector [t, v1, v2]. */
  function Reflect3(t: real, v1: real, v2: real, x: (real, real, real)): (real, real, real)
  {
    var sum := x.0 + v1 * x.1 + v2 * x.2;
    (x.0 - sum * t, x.1 - sum * t * v1, x.2 - sum * t * v2)
  }

  /** H*x for the order-2 reflector [t, v1], H = I - t*w*w^T with w = [1, v1]. */
  function Reflect2(t: real, v1: real, x: (real, real)): (real, real)
  {
    var sum := x.0 + v1 * x.1;
    (x.0 - sum * t, x.1 - sum * t * v1)
  }

  function Dot3(a: (real, real, real), b: (real, real, real)): real
  {
    a.0 * b.0 + a.1 * b.1 + a.2 * b.2
  }

  function Dot2(a: (real, real), b: (real, real)): real
  {
    a.0 * b.0 + a.1 * b.1
  }

  /** The reflector is a genuine Householder reflector: t*(w^T w) == 2. */
  predicate IsHouseholder3(t: real, v1: real, v2: real)
  {
    t * Dot3((1.0, v1, v2), (1.0, v1, v2)) == 2.0
  }

  predicate IsHouseholder2(t: real, v1: real)
  {
    t * Dot2((1.0, v1), (1.0, v1)) == 2.0
  }

  /** A reflector with t == 0 (what a zero input vector produces) is the identity. */
  lemma Reflect3ZeroTau(v1: real, v2: real, x: (real, real, real))
    ensures Reflect3(0.0, v1, v2, x) == x
  {
  }

  /** H differs from the identity only along w: H*x - x is a multiple of w,
      and the multiple is -t*(w^T x). */
  lemma {:induction false} Reflect3AlongW(t: real, v1: real, v2: real, x: (real, real, real))
    ensures var y := Reflect3(t, v1, v2, x);
            var c := -(t * Dot3((1.0, v1, v2), x));
            y.0 - x.0 == c && y.1 - x.1 == c * v1 && y.2 - x.2 == c * v2
  {
  }

  /** w^T (H x) == -(w^T x) for a Householder reflector. */
  lemma Reflect3FlipsW(t: real, v1: real, v2: real, x: (real, real, real))
    requires IsHouseholder3(t, v1, v2)
    ensures Dot3((1.0, v1, v2), Reflect3(t, v1, v2, x)) == -Dot3((1.0, v1, v2), x)
  {
    var s := Dot3((1.0, v1, v2), x);
    var d := Dot3((1.0, v1, v2), (1.0, v1, v2));
    var c := s * t;
    var y := Reflect3(t, v1, v2, x);
    assert y == (x.0 - c, x.1 - c * v1, x.2 - c * v2);
    assert v1 * (x.1 - c * v1) == v1 * x.1 - c * (v1 * v1);
    assert v2 * (x.2 - c * v2) == v2 * x.2 - c * (v2 * v2);
    assert Dot3((1.0, v1, v2), y) == s - c * d;
    assert c * d == s * (t * d);
  }

  /** A Householder reflector is an involution: applying it twice gives x back. */
  lemma Reflect3Involution(t: real, v1: real, v2: real, x: (real, real, real))
    requires IsHouseholder3(t, v1, v2)
    ensures Reflect3(t, v1, v2, Reflect3(t, v1, v2, x)) == x
  {
    var s := Dot3((1.0, v1, v2), x);
    var c := s * t;
    var y := Reflect3(t, v1, v2, x);
    assert y.0 == x.0 - c && y.1 == x.1 - c * v1 && y.2 == x.2 - c * v2;
    Reflect3FlipsW(t, v1, v2, x);
    Reflect3Back(t, v1, v2, x, y, c);
  }

  /** Second half of the involution: once w^T y == -(w^T x), applying the
      reflector to y = x - c*w adds c*w back. */
  lemma Reflect3Back(t: real, v1: real, v2: real, x: (real, real, real), y: (real, real, real), c: real)
    requires c == Dot3((1.0, v1, v2), x) * t
    requires y.0 == x.0 - c && y.1 == x.1 - c * v1 && y.2 == x.2 - c * v2
    requires Dot3((1.0, v1, v2), y) == -Dot3((1.0, v1, v2), x)
    ensures Reflect3(t, v1, v2, y) == x
  {
    var s' := y.0 + v1 * y.1 + v2 * y.2;
    assert s' * t == -c;
    assert s' * t * v1 == -(c * v1);
    assert s' * t * v2 == -(c * v2);
    var z := Reflect3(t, v1, v2, y);
    assert z.0 == y.0 - s' * t == x.0;
    assert z.1 == y.1 - s' * t * v1 == x.1;
    assert z.2 == y.2 - s' * t * v2 == x.2;
  }

  /** A Householder reflector preserves the Euclidean length (it is orthogonal). */
  lemma Reflect3Orthogonal(t: real, v1: real, v2: real, x: (real, real, real))
    requires IsHouseholder3(t, v1, v2)
    ensures var y := Reflect3(t, v1, v2, x); Dot3(y, y) == Dot3(x, x)
  {
    var s := Dot3((1.0, v1, v2), x);
    var d := Dot3((1.0, v1, v2), (1.0, v1, v2));
    var c := s * t;
    var y := Reflect3(t, v1, v2, x);
    assert y == (x.0 - c, x.1 - c * v1, x.2 - c * v2);
    assert (x.0 - c) * (x.0 - c) == x.0 * x.0 - 2.0 * c * x.0 + c * c;
    assert (x.1 - c * v1) * (x.1 - c * v1) == x.1 * x.1 - 2.0 * c * (v1 * x.1) + c * c * (v1 * v1);
    assert (x.2 - c * v2) * (x.2 - c * v2) == x.2 * x.2 - 2.0 * c * (v2 * x.2) + c * c * (v2 * v2);
    assert Dot3(y, y) == Dot3(x, x) - 2.0 * c * s + c * c * d;
    assert c * c * d == c * s * (t * d);
  }

  /** The order-2 reflector is an involution. */
  lemma Reflect2Involution(t: real, v1: real, x: (real, real))
    requires IsHouseholder2(t, v1)
    ensures Reflect2(t, v1, Reflect2(t, v1, x)) == x
  {
    var c := (x.0 + v1 * x.1) * t;
    var y := Reflect2(t, v1, x);
    assert y.0 == x.0 - c && y.1 == x.1 - c * v1;
    Reflect2FlipsW(t, v1, x);
    Reflect2Back(t, v1, x, y, c);
  }

  /** The order-2 reflector negates the component along w = [1, v1]. */
  lemma Reflect2FlipsW(t: real, v1: real, x: (real, real))
    requires IsHouseholder2(t, v1)
    ensures var y := Reflect2(t, v1, x); y.0 + v1 * y.1 == -(x.0 + v1 * x.1)
  {
    var s := x.0 + v1 * x.1;
    var d := Dot2((1.0, v1), (1.0, v1));
    var c := s * t;
    var y := Reflect2(t, v1, x);
    assert y == (x.0 - c, x.1 - c * v1);
    assert v1 * (x.1 - c * v1) == v1 * x.1 - c * (v1 * v1);
    assert y.0 + v1 * y.1 == s - c * d;
    assert c * d == s * (t * d);
  }

  /** Second half of the order-2 involution: once w^T y == -(w^T x),
      applying the reflector to y = x - c*w adds c*w back. */
  lemma Reflect2Back(t: real, v1: real, x: (real, real), y: (real, real), c: real)
    requires c == (x.0 + v1 * x.1) * t
    requires y.0 == x.0 - c && y.1 == x.1 - c * v1
    requires y.0 + v1 * y.1 == -(x.0 + v1 * x.1)
    ensures Reflect2(t, v1, y) == x
  {
    var s' := y.0 + v1 * y.1;
    assert s' * t == -c;
    assert s' * t * v1 == -(c * v1);
    assert Reflect2(t, v1, y).0 == y.0 - s' * t == x.0;
    assert Reflect2(t, v1, y).1 == y.1 - s' * t * v1 == x.1;
  }

  /** The order-2 reflector preserves the Euclidean length. */
  lemma Reflect2Orthogonal(t: real, v1: real, x: (real, real))
    requires IsHouseholder2(t, v1)
    ensures var y := Reflect2(t, v1, x); Dot2(y, y) == Dot2(x, x)
  {
    var s := x.0 + v1 * x.1;
    var d := Dot2((1.0, v1), (1.0, v1));
    var c := s * t;
    var y := Reflect2(t, v1, x);
    assert y == (x.0 - c, x.1 - c * v1);
    assert (x.0 - c) * (x.0 - c) == x.0 * x.0 - 2.0 * c * x.0 + c * c;
    assert (x.1 - c * v1) * (x.1 - c * v1) == x.1 * x.1 - 2.0 * c * (v1 * x.1) + c * c * (v1 * v1);
    assert Dot2(y, y) == Dot2(x, x) - 2.0 * c * s + c * c * d;
    assert c * c * d == c * s * (t * d);
  }

  /** The kernels the sweep calls but whose source is not part of this model,
      as functions of what they read:
      - larfg: (x) -> (tau, x') overwrites x with [beta, reflector tail];
      - shiftColumn: (3x3 window column-major, s1, s2) -> the 3-vector seeding a bulge;
      - moveBulge: (4x3 window column-major, v, s1, s2) -> (window', v'). */
  datatype Kernels = Kernels(
    larfg: seq<real> -> (real, seq<real>),
    shiftColumn: (seq<real>, Shift, Shift) -> seq<real>,
    moveBulge: (seq<real>, seq<real>, Shift, Shift) -> (seq<real>, seq<real>))
  {
    /** Each kernel writes back exactly as many entries as it was given. */
    ghost predicate Valid()
    {
      && (forall x :: |larfg(x).1| == |x|)
      && (forall h, s1, s2 :: |shiftColumn(h, s1, s2)| == 3)
      && (forall h, v, s1, s2 :: |moveBulge(h, v, s1, s2).0| == |h| && |moveBulge(h, v, s1, s2).1| == |v|)
    }
  }
}
