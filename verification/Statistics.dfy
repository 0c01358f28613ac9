/** Exact population statistics of a finite list of reals: the reference that
    every incremental form in the repository is compared with. */
module Statistics {

  function Square(x: real): real {
    x * x
  }

  function Sum(xs: seq<real>): real {
    if xs == [] then 0.0 else Sum(xs[..|xs|-1]) + xs[|xs|-1]
  }

  function SquaredDeviations(xs: seq<real>, c: real): (ds: seq<real>)
    ensures |ds| == |xs|
    ensures forall i :: 0 <= i < |xs| ==> ds[i] == Square(xs[i] - c)
  {
    seq(|xs|, i requires 0 <= i < |xs| => Square(xs[i] - c))
  }

  /** Sum of squared deviations from an arbitrary centre. */
  function SumSqDev(xs: seq<real>, c: real): real {
    Sum(SquaredDeviations(xs, c))
  }

  function SumSq(xs: seq<real>): real {
    SumSqDev(xs, 0.0)
  }

  function Mean(xs: seq<real>): real {
    if xs == [] then 0.0 else Sum(xs) / |xs| as real
  }

  /** Sum of squared deviations from the list's own mean. */
  function M2(xs: seq<real>): real {
    SumSqDev(xs, Mean(xs))
  }

  /** Population variance. */
  function Variance(xs: seq<real>): real {
    if xs == [] then 0.0 else M2(xs) / |xs| as real
  }

  lemma SumSnoc(xs: seq<real>, x: real)
    ensures Sum(xs + [x]) == Sum(xs) + x
  {
    assert (xs + [x])[..|xs|] == xs;
  }

  lemma SumSqDevSnoc(xs: seq<real>, x: real, c: real)
    ensures SumSqDev(xs + [x], c) == SumSqDev(xs, c) + Square(x - c)
  {
    hide Square;
    assert SquaredDeviations(xs + [x], c) == SquaredDeviations(xs, c) + [Square(x - c)];
    SumSnoc(SquaredDeviations(xs, c), Square(x - c));
  }

  lemma {:induction false} SumConcat(xs: seq<real>, ys: seq<real>)
    ensures Sum(xs + ys) == Sum(xs) + Sum(ys)
  {
    if ys == [] {
      assert xs + ys == xs;
    } else {
      var init, y := ys[..|ys|-1], ys[|ys|-1];
      SumConcat(xs, init);
      assert xs + ys == (xs + init) + [y];
      SumSnoc(xs + init, y);
    }
  }

  lemma SumSqDevConcat(xs: seq<real>, ys: seq<real>, c: real)
    ensures SumSqDev(xs + ys, c) == SumSqDev(xs, c) + SumSqDev(ys, c)
  {
    hide Square;
    assert SquaredDeviations(xs + ys, c) == SquaredDeviations(xs, c) + SquaredDeviations(ys, c);
    SumConcat(SquaredDeviations(xs, c), SquaredDeviations(ys, c));
  }

  lemma SumSqSnoc(xs: seq<real>, x: real)
    ensures SumSq(xs + [x]) == SumSq(xs) + Square(x)
  {
    SumSqDevSnoc(xs, x, 0.0);
  }

  lemma {:induction false} SumNonNegative(xs: seq<real>)
    requires forall i :: 0 <= i < |xs| ==> xs[i] >= 0.0
    ensures Sum(xs) >= 0.0
  {
    if xs != [] {
      SumNonNegative(xs[..|xs|-1]);
    }
  }

  lemma ProductPositive(x: real, y: real, p: real)
    requires x > 0.0 && y > 0.0 && p == x * y
    ensures p > 0.0
  {
  }

  lemma SquarePositive(x: real)
    requires x != 0.0
    ensures Square(x) > 0.0
  {
    var y := if x < 0.0 then -x else x;
    ProductPositive(y, y, Square(x));
  }

  lemma ProductMonotone(a: real, b: real, c: real, d: real)
    requires 0.0 <= a <= b && 0.0 <= c <= d
    ensures 0.0 <= a * c <= b * d
  {
    assert b * d - a * c == b * (d - c) + (b - a) * c;
  }

  lemma SquareNonNegative(d: real)
    ensures Square(d) >= 0.0
  {
  }

  lemma SumSqDevNonNegative(xs: seq<real>, c: real)
    ensures SumSqDev(xs, c) >= 0.0
  {
    hide Square;
    forall i | 0 <= i < |xs| ensures SquaredDeviations(xs, c)[i] >= 0.0 {
      SquareNonNegative(xs[i] - c);
    }
    SumNonNegative(SquaredDeviations(xs, c));
  }

  /** Expanding the square: only the length, the sum and the sum of squares matter. */
  function Expanded(n: real, s: real, q: real, c: real): real {
    q - 2.0 * (c * s) + n * Square(c)
  }

  lemma ExpandOne(n: real, s: real, q: real, c: real, x: real)
    ensures Expanded(n, s, q, c) + Square(x - c) == Expanded(n + 1.0, s + x, q + Square(x), c)
  {
    assert Square(x - c) == x * x - 2.0 * (c * x) + c * c;
    assert c * (s + x) == c * s + c * x;
  }

  lemma {:induction false} SumSqDevExpanded(xs: seq<real>, c: real)
    ensures SumSqDev(xs, c) == Expanded(|xs| as real, Sum(xs), SumSq(xs), c)
  {
    hide Square;
    if xs == [] {
      assert SquaredDeviations(xs, c) == [] == SquaredDeviations(xs, 0.0);
    } else {
      var init, x := xs[..|xs|-1], xs[|xs|-1];
      assert xs == init + [x];
      SumSqDevExpanded(init, c);
      SumSqDevSnoc(init, x, c);
      SumSqSnoc(init, x);
      ExpandOne(|init| as real, Sum(init), SumSq(init), c, x);
    }
  }

  lemma MeanTimesCount(xs: seq<real>)
    ensures |xs| as real * Mean(xs) == Sum(xs)
  {
  }

  /** The two-sums form of the squared deviations. */
  lemma M2FromSums(xs: seq<real>)
    ensures M2(xs) == SumSq(xs) - Mean(xs) * Sum(xs)
  {
    hide Expanded, Mean, Square, Sum, SumSq, SumSqDev;
    MeanTimesCount(xs);
    SumSqDevExpanded(xs, Mean(xs));
    ExpandedAtMean(|xs| as real, Sum(xs), SumSq(xs), Mean(xs));
  }

  lemma ExpandedAtMean(n: real, s: real, q: real, c: real)
    requires n * c == s
    ensures Expanded(n, s, q, c) == q - c * s
  {
    assert n * (c * c) == c * (n * c);
  }

  /** Both statistics depend on the values only through length, sum and sum of squares. */
  lemma SameSumsSameStatistics(xs: seq<real>, ys: seq<real>)
    requires |xs| == |ys| && Sum(xs) == Sum(ys) && SumSq(xs) == SumSq(ys)
    ensures Mean(xs) == Mean(ys) && M2(xs) == M2(ys) && Variance(xs) == Variance(ys)
  {
    hide Square, M2, SumSq;
    assert Mean(xs) == Mean(ys);
    M2FromSums(xs);
    M2FromSums(ys);
  }

  /** A change of units: x becomes slope * x + offset. */
  function Rescale(slope: real, offset: real, x: real): real {
    slope * x + offset
  }

  function Affine(xs: seq<real>, a: real, b: real): (ys: seq<real>)
    ensures |ys| == |xs|
    ensures forall i :: 0 <= i < |xs| ==> ys[i] == Rescale(a, b, xs[i])
  {
    seq(|xs|, i requires 0 <= i < |xs| => Rescale(a, b, xs[i]))
  }

  lemma {:induction false} SumAffine(xs: seq<real>, a: real, b: real)
    ensures Sum(Affine(xs, a, b)) == a * Sum(xs) + |xs| as real * b
  {
    if xs != [] {
      var init, x := xs[..|xs|-1], xs[|xs|-1];
      SumAffine(init, a, b);
      assert Affine(xs, a, b)[..|xs|-1] == Affine(init, a, b) by { hide Rescale; }
      RescaleSum(|init| as real, Sum(init), x, a, b);
    }
  }

  lemma RescaleSum(n: real, s: real, x: real, a: real, b: real)
    ensures a * s + n * b + Rescale(a, b, x) == a * (s + x) + (n + 1.0) * b
  {
  }

  lemma MeanAffine(xs: seq<real>, a: real, b: real)
    requires xs != []
    ensures Mean(Affine(xs, a, b)) == Rescale(a, b, Mean(xs))
  {
    SumAffine(xs, a, b);
    DivideAffine(Sum(xs), |xs| as real, a, b);
  }

  lemma DivideAffine(s: real, n: real, a: real, b: real)
    requires n > 0.0
    ensures (a * s + n * b) / n == a * (s / n) + b
  {
    var q := s / n;
    assert n * q == s;
    assert n * (a * q) == a * (n * q);
    assert n * (a * q + b) == n * (a * q) + n * b;
    DivideExact(n, a * q + b);
  }

  lemma DivideExact(n: real, q: real)
    requires n != 0.0
    ensures (n * q) / n == q
  {
  }

  lemma {:induction false} SumScaled(xs: seq<real>, ys: seq<real>, k: real)
    requires |xs| == |ys|
    requires forall i :: 0 <= i < |xs| ==> ys[i] == k * xs[i]
    ensures Sum(ys) == k * Sum(xs)
  {
    if xs != [] {
      var n := |xs| - 1;
      SumScaled(xs[..n], ys[..n], k);
      assert k * (Sum(xs[..n]) + xs[n]) == k * Sum(xs[..n]) + k * xs[n];
    }
  }

  lemma RescaledSquare(x: real, c: real, a: real, b: real)
    ensures Square(Rescale(a, b, x) - Rescale(a, b, c)) == Square(a) * Square(x - c)
  {
    assert Rescale(a, b, x) - Rescale(a, b, c) == a * (x - c);
  }

  lemma SumSqDevAffine(xs: seq<real>, a: real, b: real, c: real)
    ensures SumSqDev(Affine(xs, a, b), Rescale(a, b, c)) == Square(a) * SumSqDev(xs, c)
  {
    hide Square, Rescale;
    var ds := SquaredDeviations(xs, c);
    var es := SquaredDeviations(Affine(xs, a, b), Rescale(a, b, c));
    forall i | 0 <= i < |xs| ensures es[i] == Square(a) * ds[i] {
      RescaledSquare(xs[i], c, a, b);
    }
    SumScaled(ds, es, Square(a));
  }

  /** A change of units scales the squared deviations by the square of its slope. */
  lemma M2Affine(xs: seq<real>, a: real, b: real)
    ensures M2(Affine(xs, a, b)) == Square(a) * M2(xs)
  {
    hide Square;
    if xs == [] {
      assert SquaredDeviations(xs, Mean(xs)) == [];
      assert SquaredDeviations(Affine(xs, a, b), Mean(Affine(xs, a, b))) == [];
    } else {
      MeanAffine(xs, a, b);
      SumSqDevAffine(xs, a, b, Mean(xs));
    }
  }

  lemma {:induction false} SumSqDevZero(xs: seq<real>, c: real)
    ensures SumSqDev(xs, c) == 0.0 <==> forall i :: 0 <= i < |xs| ==> xs[i] == c
  {
    hide Square, SumSqDev;
    if xs == [] {
      assert SumSqDev(xs, c) == 0.0 by { NothingDeviates(c); }
    } else {
      var init, x := xs[..|xs|-1], xs[|xs|-1];
      assert xs == init + [x];
      SumSqDevZero(init, c);
      SumSqDevSnoc(init, x, c);
      SumSqDevNonNegative(init, c);
      ZeroSquare(x - c);
    }
  }

  lemma NothingDeviates(c: real)
    ensures SumSqDev([], c) == 0.0
  {
    assert SquaredDeviations([], c) == [];
  }

  lemma ZeroSquare(d: real)
    ensures Square(d) >= 0.0 && (Square(d) == 0.0 <==> d == 0.0)
  {
    if d != 0.0 {
      SquarePositive(d);
    }
  }

  lemma ConstantMean(xs: seq<real>, c: real)
    requires xs != [] && forall i :: 0 <= i < |xs| ==> xs[i] == c
    ensures Mean(xs) == c
  {
    SumAffine(xs, 0.0, c);
    assert Affine(xs, 0.0, c) == xs by {
      forall i | 0 <= i < |xs| ensures Rescale(0.0, c, xs[i]) == xs[i] {
      }
    }
    DivideExact(|xs| as real, c);
  }

  /** The variance vanishes exactly when all values are equal. */
  lemma {:induction false} VarianceZeroExact(xs: seq<real>)
    ensures Variance(xs) == 0.0 <==> forall i, j :: 0 <= i < j < |xs| ==> xs[i] == xs[j]
  {
    hide Mean, SumSqDev;
    if xs != [] {
      SumSqDevZero(xs, Mean(xs));
      DividesToZero(M2(xs), |xs| as real);
      if forall i, j :: 0 <= i < j < |xs| ==> xs[i] == xs[j] {
        ConstantMean(xs, xs[0]);
      }
    }
  }

  lemma DividesToZero(m: real, n: real)
    requires n != 0.0
    ensures m / n == 0.0 <==> m == 0.0
  {
  }
}
