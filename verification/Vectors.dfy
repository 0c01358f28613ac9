/** Finite-dimensional real vectors. */
module Vectors {
  import opened Statistics

  type Vector = seq<real>

  function Dot(a: Vector, b: Vector): real
    requires |a| == |b|
  {
    if a == [] then 0.0 else Dot(a[..|a|-1], b[..|b|-1]) + a[|a|-1] * b[|b|-1]
  }

  function SquaredNorm(a: Vector): real {
    if a == [] then 0.0 else SquaredNorm(a[..|a|-1]) + Square(a[|a|-1])
  }

  function Difference(a: Vector, b: Vector): (d: Vector)
    requires |a| == |b|
    ensures |d| == |a| && forall i :: 0 <= i < |a| ==> d[i] == a[i] - b[i]
  {
    seq(|a|, i requires 0 <= i < |a| => a[i] - b[i])
  }

  function SquaredDistance(a: Vector, b: Vector): real
    requires |a| == |b|
  {
    SquaredNorm(Difference(a, b))
  }

  lemma {:induction false} SquaredNormNonNegative(a: Vector)
    ensures SquaredNorm(a) >= 0.0
  {
    hide Square;
    if a != [] {
      SquaredNormNonNegative(a[..|a|-1]);
      SquareNonNegative(a[|a|-1]);
    }
  }

  lemma SquareOfDifference(x: real, y: real)
    ensures Square(x - y) == Square(x) + Square(y) - 2.0 * (x * y)
    ensures Square(x) + Square(y) + 2.0 * (x * y) >= 0.0
  {
    SquareNonNegative(x + y);
  }

  /** |a - b|^2 = |a|^2 + |b|^2 - 2 a.b, and |a + b|^2 >= 0. */
  lemma {:induction false} DistanceAndDot(a: Vector, b: Vector)
    requires |a| == |b|
    ensures SquaredDistance(a, b) == SquaredNorm(a) + SquaredNorm(b) - 2.0 * Dot(a, b)
    ensures SquaredNorm(a) + SquaredNorm(b) + 2.0 * Dot(a, b) >= 0.0
  {
    hide Square;
    if a != [] {
      var n := |a| - 1;
      DistanceAndDot(a[..n], b[..n]);
      assert Difference(a, b)[..n] == Difference(a[..n], b[..n]);
      SquareOfDifference(a[n], b[n]);
    }
  }

  function Mix(alpha: real, x: real, y: real): real {
    alpha * x + (1.0 - alpha) * y
  }

  /** alpha * e + (1 - alpha) * c. */
  function Blend(alpha: real, e: Vector, c: Vector): (v: Vector)
    requires |e| == |c|
    ensures |v| == |c| && forall i :: 0 <= i < |c| ==> v[i] == Mix(alpha, e[i], c[i])
  {
    seq(|c|, i requires 0 <= i < |c| => Mix(alpha, e[i], c[i]))
  }

  lemma SquareConvex(alpha: real, x: real, y: real)
    requires 0.0 <= alpha <= 1.0
    ensures Square(Mix(alpha, x, y)) <= Mix(alpha, Square(x), Square(y))
  {
    var beta := 1.0 - alpha;
    var d := x - y;
    SquareNonNegative(d);
    ProductMonotone(0.0, alpha, 0.0, beta);
    ProductMonotone(0.0, alpha * beta, 0.0, Square(d));
    assert alpha * x + beta * y == y + alpha * d;
    assert Square(y + alpha * d) == Square(y) + 2.0 * (alpha * (y * d)) + alpha * (alpha * Square(d));
    assert Square(x) == Square(y) + 2.0 * (y * d) + Square(d);
    assert (alpha * beta) * Square(d) == alpha * Square(d) - alpha * (alpha * Square(d));
    assert alpha * Square(x) == alpha * Square(y) + 2.0 * (alpha * (y * d)) + alpha * Square(d);
  }

  /** Blending never leaves a ball around the origin. */
  lemma {:induction false} BlendNorm(alpha: real, e: Vector, c: Vector)
    requires |e| == |c| && 0.0 <= alpha <= 1.0
    ensures SquaredNorm(Blend(alpha, e, c)) <= Mix(alpha, SquaredNorm(e), SquaredNorm(c))
  {
    hide Square, Mix;
    if c != [] {
      var n := |c| - 1;
      BlendNorm(alpha, e[..n], c[..n]);
      assert Blend(alpha, e, c)[..n] == Blend(alpha, e[..n], c[..n]);
      SquareConvex(alpha, e[n], c[n]);
      MixAdds(alpha, SquaredNorm(e[..n]), SquaredNorm(c[..n]), Square(e[n]), Square(c[n]));
    } else {
      assert Mix(alpha, 0.0, 0.0) == 0.0 by { MixAdds(alpha, 0.0, 0.0, 0.0, 0.0); }
    }
  }

  lemma MixAdds(alpha: real, x: real, y: real, x': real, y': real)
    ensures Mix(alpha, x + x', y + y') == Mix(alpha, x, y) + Mix(alpha, x', y')
  {
  }

  lemma Distribute(k: real, x: real, y: real)
    ensures k * (x + y) == k * x + k * y
  {
  }
}
