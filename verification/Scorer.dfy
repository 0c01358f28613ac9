/** Scoring one value against a bucket (phase0/scoring/zscore_scorer.py).
    Square roots are avoided: a z-score is represented by its signed square z * |z|,
    a standard deviation by its square. */
module Scorer {
  import opened Wrappers
  import opened Statistics
  import opened Sorting
  import opened RobustStats
  import opened RollingBaseline
  import opened BucketKeys

  datatype Method = MeanStd | MedianMad

  datatype ZScoreScorer = ZScoreScorer(scoring: Method, threshold: real, minSamples: int)

  datatype Spread = StdSquared(variance: real) | MedianDeviation(mad: real)

  datatype ScoreResult = ScoreResult(
    vmId: string, metricName: string, bucketKey: BucketKey, value: real,
    signedSquareZ: real, isAnomaly: bool, baselineMean: real, baselineSpread: Spread, coldStart: bool)

  /** The square of BucketState.std. */
  function StateVariance(s: BucketState): real {
    if s.count < 2 then 0.0 else s.m2 / s.count as real
  }

  function SignedSquare(z: real): real {
    z * Abs(z)
  }

  /** |z| > threshold, told from the signed square of z. */
  predicate Exceeds(signedSquareZ: real, threshold: real) {
    threshold < 0.0 || Abs(signedSquareZ) > Square(threshold)
  }

  function SignedSquareZ(scoring: Method, value: real, s: BucketState): real {
    match scoring
    case MeanStd =>
      var variance := StateVariance(s);
      if variance == 0.0 then 0.0 else SignedSquare(value - s.mean) / variance
    case MedianMad => SignedSquare(RobustZScore(value, s.window))
  }

  function Score(sc: ZScoreScorer, vmId: string, metricName: string, key: BucketKey,
                 value: real, s: BucketState): ScoreResult {
    if s.count < sc.minSamples then
      ScoreResult(vmId, metricName, key, value, 0.0, false, s.mean, StdSquared(StateVariance(s)), true)
    else
      var z := SignedSquareZ(sc.scoring, value, s);
      var anomaly := Exceeds(z, sc.threshold);
      match sc.scoring
      case MeanStd =>
        ScoreResult(vmId, metricName, key, value, z, anomaly, s.mean, StdSquared(StateVariance(s)), false)
      case MedianMad =>
        var median := Median(s.window);
        ScoreResult(vmId, metricName, key, value, z, anomaly, median,
                    MedianDeviation(Mad(s.window, Some(median))), false)
  }

  // ----- the representation loses nothing -----

  lemma SquareMonotone(x: real, y: real)
    requires x >= 0.0 && y >= 0.0
    ensures Square(x) > Square(y) <==> x > y
  {
    if x > y {
      ProductPositive(x - y, x + y, Square(x) - Square(y));
    } else {
      ProductMonotone(x, y, x, y);
    }
  }

  lemma AbsSignedSquare(z: real)
    ensures Abs(SignedSquare(z)) == Square(Abs(z)) == Square(z)
  {
  }

  /** The comparison of squares is the comparison of |z| with the threshold. */
  lemma {:induction false} ThresholdOnSquares(z: real, threshold: real)
    ensures Exceeds(SignedSquare(z), threshold) <==> Abs(z) > threshold
  {
    hide Square;
    AbsSignedSquare(z);
    if threshold >= 0.0 {
      SquareMonotone(Abs(z), threshold);
    }
  }

  /** For the true standard deviation std, the model's value is the signed square of
      (value - mean) / std, so the flag is the source's. */
  lemma {:induction false} ZScoreMeaning(value: real, s: BucketState, std: real, threshold: real)
    requires std > 0.0 && Square(std) == StateVariance(s)
    ensures SignedSquareZ(MeanStd, value, s) == SignedSquare((value - s.mean) / std)
    ensures Exceeds(SignedSquareZ(MeanStd, value, s), threshold) <==>
              Abs((value - s.mean) / std) > threshold
  {
    hide StateVariance, Exceeds;
    var d := value - s.mean;
    SignedSquareQuotient(d, std);
    ThresholdOnSquares(d / std, threshold);
  }

  lemma SignedSquareQuotient(d: real, std: real)
    requires std > 0.0
    ensures Square(std) != 0.0 && SignedSquare(d) / Square(std) == SignedSquare(d / std)
  {
    var q := d / std;
    assert d == std * q;
    assert Abs(d) == std * Abs(q);
    assert SignedSquare(d) == Square(std) * SignedSquare(q) by {
      assert (std * q) * (std * Abs(q)) == (std * std) * (q * Abs(q));
    }
    SquarePositive(std);
    DivideExact(Square(std), SignedSquare(q));
  }

  // ----- the verdict, from the window alone -----

  /** Farther from the centre than the threshold allows, without quotients or roots. */
  predicate Beyond(scoring: Method, threshold: real, value: real, w: seq<real>) {
    match scoring
    case MeanStd => Variance(w) > 0.0 && Square(value - Mean(w)) > Square(threshold) * Variance(w)
    case MedianMad =>
      var mad := Mad(w, None);
      mad > 0.0 && 0.6745 * Abs(value - Median(w)) > threshold * mad
  }

  /** z for a value against a window, in the source's own terms: (value - mean) / std for the root std of the
      variance, or 0.6745 * (value - median) / MAD; zero when the spread is. */
  ghost predicate IsZ(scoring: Method, z: real, std: real, value: real, w: seq<real>) {
    match scoring
    case MeanStd =>
      && std >= 0.0 && std * std == Variance(w)
      && (if std == 0.0 then z == 0.0 else z * std == value - Mean(w))
    case MedianMad =>
      && std == Mad(w, None)
      && (if std == 0.0 then z == 0.0 else z * std == 0.6745 * (value - Median(w)))
  }

  /** Against the exact state of a window the scorer is cold exactly below the minimum number of
      samples, repeats what it was asked, reports that window's own statistics, and flags exactly the
      values beyond the threshold (every value, for a negative threshold). */
  lemma {:induction false} VerdictExact(sc: ZScoreScorer, vmId: string, metricName: string, key: BucketKey,
                                        value: real, w: seq<real>)
    ensures var r := Score(sc, vmId, metricName, key, value, StateOf(w));
            && r.vmId == vmId && r.metricName == metricName && r.bucketKey == key && r.value == value
            && (r.coldStart <==> |w| < sc.minSamples)
            && (r.isAnomaly <==> |w| >= sc.minSamples
                                 && (sc.threshold < 0.0 || Beyond(sc.scoring, sc.threshold, value, w)))
            && (r.coldStart || sc.scoring.MeanStd? ==>
                  r.baselineMean == Mean(w) && r.baselineSpread == StdSquared(Variance(w)))
            && (!r.coldStart && sc.scoring.MedianMad? ==>
                  r.baselineMean == Median(w) && r.baselineSpread == MedianDeviation(Mad(w, None)))
            && (r.coldStart ==> r.signedSquareZ == 0.0)
  {
    hide SignedSquare, StateVariance, Variance, Mean, M2, Median, Square, Mad;
    VarianceOfWindow(w);
    var t := sc.threshold;
    if |w| >= sc.minSamples && t >= 0.0 {
      if sc.scoring.MeanStd? {
        MeanStdVerdict(value, w, t);
      } else {
        MedianMadVerdict(value, w, t);
      }
    }
    MadDefault(w);
  }

  /** The reported z of a warm bucket, sign included, and its flag, for the z of the source. */
  lemma {:induction false} ReportedZExact(sc: ZScoreScorer, vmId: string, metricName: string, key: BucketKey,
                                          value: real, w: seq<real>, z: real, std: real)
    requires |w| >= sc.minSamples && IsZ(sc.scoring, z, std, value, w)
    ensures var r := Score(sc, vmId, metricName, key, value, StateOf(w));
            && r.signedSquareZ == (if z < 0.0 then -(z * z) else z * z)
            && (r.isAnomaly <==> (if z < 0.0 then -z else z) > sc.threshold)
  {
    hide SignedSquare, StateVariance, Variance, Mean, M2, Median, Mad, Exceeds;
    if sc.scoring.MeanStd? {
      VarianceOfWindow(w);
      if std == 0.0 {
        ZeroProduct(std, std, Variance(w));
      } else {
        SquarePositive(std);
        assert Square(std) == Variance(w);
        ZScoreMeaning(value, StateOf(w), std, sc.threshold);
        DivideExact(std, z);
      }
    } else {
      MadDefault(w);
      if std != 0.0 {
        if w == [] { MadEmpty(); }
        DivideExact(std, z);
      }
    }
    ThresholdOnSquares(z, sc.threshold);
    SignedSquareOf(z);
  }

  lemma SignedSquareOf(z: real)
    ensures SignedSquare(z) == if z < 0.0 then -(z * z) else z * z
  {
  }

  lemma MeanStdVerdict(value: real, w: seq<real>, t: real)
    requires t >= 0.0
    ensures Exceeds(SignedSquareZ(MeanStd, value, StateOf(w)), t) <==> Beyond(MeanStd, t, value, w)
  {
    hide SignedSquare, StateVariance, Variance, Mean, M2, Square;
    VarianceOfWindow(w);
    VarianceNonNegative(w);
    SquareNonNegative(t);
    var v, d := Variance(w), value - Mean(w);
    AbsSignedSquare(d);
    if v > 0.0 {
      QuotientCompare(SignedSquare(d), v, Square(t));
    }
  }

  lemma MedianMadVerdict(value: real, w: seq<real>, t: real)
    requires t >= 0.0
    ensures Exceeds(SignedSquareZ(MedianMad, value, StateOf(w)), t) <==> Beyond(MedianMad, t, value, w)
  {
    hide SignedSquare, Median, Mad, Mean, M2;
    var m, mad := Median(w), Mad(w, Some(Median(w)));
    MadDefault(w);
    MadNonNegative(w, m);
    ThresholdOnSquares(RobustZScore(value, w), t);
    if w == [] {
      MadEmpty();
    } else if mad > 0.0 {
      QuotientCompare(ROBUST_Z_CONSTANT * (value - m), mad, t);
    }
  }

  lemma QuotientCompare(x: real, v: real, limit: real)
    requires v > 0.0 && limit >= 0.0
    ensures Abs(x / v) > limit <==> Abs(x) > limit * v
  {
    var q := x / v;
    assert x == q * v;
    assert Abs(x) == Abs(q) * v;
    if Abs(q) > limit {
      ProductPositive(Abs(q) - limit, v, Abs(x) - limit * v);
    } else {
      ProductMonotone(Abs(q), limit, v, v);
    }
  }

  // ----- change of units -----

  function Sign(a: real): real {
    if a < 0.0 then -1.0 else 1.0
  }

  lemma SignedSquareScaled(a: real, d: real, e: real)
    requires e == a * d
    ensures SignedSquare(e) == Square(a) * (Sign(a) * SignedSquare(d))
  {
    assert Abs(e) == Abs(a) * Abs(d);
    assert a * Abs(a) == Square(a) * Sign(a);
    assert e * Abs(e) == (a * Abs(a)) * (d * Abs(d));
  }

  lemma CancelFactor(k: real, x: real, y: real)
    requires k != 0.0 && y != 0.0
    ensures k * y != 0.0 && (k * x) / (k * y) == x / y
  {
    var q := x / y;
    assert k * x == (k * y) * q;
    DivideExact(k * y, q);
  }

  lemma VarianceOfWindow(w: seq<real>)
    ensures StateVariance(StateOf(w)) == Variance(w)
  {
    hide M2, Mean;
    if |w| == 1 {
      SingletonM2(w[0]);
      assert w == [w[0]];
    }
  }

  lemma SingletonM2(x: real)
    ensures M2([x]) == 0.0
  {
    hide Square;
    SumSnoc([], x);
    assert [] + [x] == [x] && Mean([x]) == x;
    SumSqDevSnoc([], x, x);
    assert SquaredDeviations([], x) == [];
    assert Square(x - x) == 0.0 by { SquareZero(x - x); }
  }

  lemma SquareZero(d: real)
    requires d == 0.0
    ensures Square(d) == 0.0
  {
  }

  lemma VarianceAffine(w: seq<real>, a: real, b: real)
    ensures Variance(Affine(w, a, b)) == Square(a) * Variance(w)
  {
    hide Square, M2, Rescale;
    if w == [] {
      ZeroProduct(Square(a), Variance(w), 0.0);
    } else {
      M2Affine(w, a, b);
      FactorOutOf(M2(Affine(w, a, b)), Square(a), M2(w), |w| as real);
    }
  }

  lemma FactorOutOf(p: real, k: real, x: real, n: real)
    requires n != 0.0 && p == k * x
    ensures p / n == k * (x / n)
  {
    FactorOut(k, x, n);
  }

  lemma FactorOut(k: real, x: real, n: real)
    requires n != 0.0
    ensures (k * x) / n == k * (x / n)
  {
    var q := x / n;
    assert k * x == n * (k * q) by { assert x == n * q; }
    DivideExact(n, k * q);
  }

  lemma ZScoreUnits(value: real, w: seq<real>, a: real, b: real)
    requires a != 0.0
    ensures SignedSquareZ(MeanStd, Rescale(a, b, value), StateOf(Affine(w, a, b))) ==
            Sign(a) * SignedSquareZ(MeanStd, value, StateOf(w))
  {
    hide StateVariance, SignedSquare, Variance, Square, Rescale;
    var v, v' := Variance(w), Variance(Affine(w, a, b));
    VarianceOfWindow(w);
    VarianceOfWindow(Affine(w, a, b));
    VarianceAffine(w, a, b);
    SquarePositive(a);
    if v != 0.0 {
      assert w != [] by { EmptyVariance(); }
      MeanAffine(w, a, b);
      var d, e := value - Mean(w), Rescale(a, b, value) - Rescale(a, b, Mean(w));
      RescaleDifference(value, Mean(w), a, b);
      SignedSquareScaled(a, d, e);
      RatioUnits(Square(a), Sign(a), SignedSquare(d), v, SignedSquare(e), v');
    } else {
      ZeroProduct(Square(a), v, v');
      ZeroProduct(Sign(a), SignedSquareZ(MeanStd, value, StateOf(w)), 0.0);
    }
  }

  lemma RatioUnits(k: real, s: real, x: real, y: real, x': real, y': real)
    requires k > 0.0 && y != 0.0 && x' == k * (s * x) && y' == k * y
    ensures y' != 0.0 && x' / y' == s * (x / y)
  {
    CancelFactor(k, s * x, y);
    FactorOut(s, x, y);
  }

  lemma ZeroProduct(k: real, v: real, p: real)
    requires v == 0.0
    ensures p == k * v ==> p == 0.0
    ensures k * v == 0.0
  {
  }

  lemma EmptyVariance()
    ensures Variance([]) == 0.0
  {
  }

  lemma RescaleDifference(x: real, c: real, a: real, b: real)
    ensures Rescale(a, b, x) - Rescale(a, b, c) == a * (x - c)
  {
  }

  lemma RobustZUnits(value: real, w: seq<real>, a: real, b: real)
    requires a != 0.0
    ensures RobustZScore(Rescale(a, b, value), Affine(w, a, b)) == Sign(a) * RobustZScore(value, w)
  {
    hide Median, Rescale;
    if w != [] {
      MedianAffine(w, a, b);
      MadAffine(w, a, b);
      var m, mad := Median(w), Mad(w, Some(Median(w)));
      assert Mad(Affine(w, a, b), Some(Median(Affine(w, a, b)))) == Abs(a) * mad;
      RescaleDifference(value, m, a, b);
      RobustRatioUnits(a, value - m, mad);
    }
  }

  lemma RobustRatioUnits(a: real, d: real, mad: real)
    requires a != 0.0
    ensures Abs(a) * mad == 0.0 <==> mad == 0.0
    ensures mad != 0.0 ==>
              ROBUST_Z_CONSTANT * (a * d) / (Abs(a) * mad) == Sign(a) * (ROBUST_Z_CONSTANT * d / mad)
  {
    if mad != 0.0 {
      assert ROBUST_Z_CONSTANT * (a * d) == Abs(a) * (Sign(a) * (ROBUST_Z_CONSTANT * d));
      CancelFactor(Abs(a), Sign(a) * (ROBUST_Z_CONSTANT * d), mad);
      FactorOut(Sign(a), ROBUST_Z_CONSTANT * d, mad);
    }
  }

  /** A change of units only flips the sign of z (for a negative slope): both methods give
      the same cold-start and anomaly verdict. */
  lemma {:induction false} ScoreUnits(sc: ZScoreScorer, vmId: string, metricName: string, key: BucketKey,
                   value: real, w: seq<real>, a: real, b: real)
    requires a != 0.0
    ensures var r := Score(sc, vmId, metricName, key, value, StateOf(w));
            var r' := Score(sc, vmId, metricName, key, Rescale(a, b, value), StateOf(Affine(w, a, b)));
            && r'.coldStart == r.coldStart
            && r'.isAnomaly == r.isAnomaly
            && r'.signedSquareZ == Sign(a) * r.signedSquareZ
  {
    hide Rescale, RobustZScore, Mean, M2, Median, Mad, StateVariance, SignedSquare;
    if sc.scoring.MeanStd? {
      ZScoreUnits(value, w, a, b);
    } else {
      RobustZUnits(value, w, a, b);
      SignedSquareSign(Sign(a), RobustZScore(value, w));
    }
  }

  lemma SignedSquareSign(s: real, z: real)
    requires s == 1.0 || s == -1.0
    ensures SignedSquare(s * z) == s * SignedSquare(z)
  {
  }

  // ----- how many members of its own window a bucket can flag -----

  function FlaggedBy(sc: ZScoreScorer, s: BucketState): real -> bool {
    x => Score(sc, "", "", ResolveGlobal("", ""), x, s).isAnomaly
  }

  function FartherThan(limit: real, c: real): real -> bool {
    x => Square(x - c) > limit
  }

  lemma {:induction false} FarMembers(xs: seq<real>, c: real, limit: real)
    requires limit >= 0.0
    ensures Count(xs, FartherThan(limit, c)) as real * limit <= SumSqDev(xs, c)
  {
    hide Square, SumSqDev, FartherThan, Count;
    var far := FartherThan(limit, c);
    if xs == [] {
      NothingDeviates(c);
      CountNone(xs, far);
    } else {
      var init, x := xs[..|xs|-1], xs[|xs|-1];
      assert xs == init + [x];
      FarMembers(init, c, limit);
      SumSqDevSnoc(init, x, c);
      SquareNonNegative(x - c);
      FartherMeans(limit, c, x);
      CountSnoc(init, x, far);
      FarStep(Count(init, far) as real, Count(xs, far) as real, limit, SumSqDev(init, c), Square(x - c));
    }
  }

  lemma FarStep(k: real, k': real, limit: real, s: real, d: real)
    requires k * limit <= s && d >= 0.0
    requires k' == k || (k' == k + 1.0 && d > limit)
    ensures k' * limit <= s + d
  {
    if k' == k + 1.0 {
      assert k' * limit == k * limit + limit;
    }
  }

  lemma FartherMeans(limit: real, c: real, x: real)
    ensures FartherThan(limit, c)(x) <==> Square(x - c) > limit
  {
  }

  lemma FlaggedIsFar(sc: ZScoreScorer, w: seq<real>, x: real)
    requires sc.scoring.MeanStd? && sc.threshold >= 0.0
    ensures FlaggedBy(sc, StateOf(w))(x) ==>
              && Variance(w) > 0.0
              && Square(x - Mean(w)) > Square(sc.threshold) * Variance(w)
  {
    hide Square, Score, Variance, Mean, M2;
    VerdictExact(sc, "", "", ResolveGlobal("", ""), x, w);
  }

  lemma VarianceNonNegative(w: seq<real>)
    ensures Variance(w) >= 0.0
  {
    hide Square;
    if w != [] {
      SumSqDevNonNegative(w, Mean(w));
    }
  }

  /** Chebyshev's bound for the scorer: in every reachable bucket state, at threshold t >= 0 the
      number of window members flagged against their own baseline, times t squared, is at most
      the size of the window. */
  lemma {:induction false} ChebyshevBound(sc: ZScoreScorer, ws: seq<Write>)
    requires sc.scoring.MeanStd? && sc.threshold >= 0.0
    ensures var s := Replay(ws);
            Count(s.window, FlaggedBy(sc, s)) as real * Square(sc.threshold) <= s.count as real
  {
    hide *;
    ReplayExact(ws);
    WindowChebyshev(sc, WindowOf(ws));
    assert StateOf(WindowOf(ws)).window == WindowOf(ws) && StateOf(WindowOf(ws)).count == |WindowOf(ws)| by {
      StateOfFields(WindowOf(ws));
    }
  }

  lemma StateOfFields(w: seq<real>)
    ensures StateOf(w).window == w && StateOf(w).count == |w|
  {
  }

  lemma WindowChebyshev(sc: ZScoreScorer, w: seq<real>)
    requires sc.scoring.MeanStd? && sc.threshold >= 0.0
    ensures Count(w, FlaggedBy(sc, StateOf(w))) as real * Square(sc.threshold) <= |w| as real
  {
    hide Square, Variance, Mean, SumSqDev, FlaggedBy, FartherThan, Count;
    var v, t2 := Variance(w), Square(sc.threshold);
    SquareNonNegative(sc.threshold);
    VarianceNonNegative(w);
    var far, flagged := FartherThan(t2 * v, Mean(w)), FlaggedBy(sc, StateOf(w));
    forall x ensures flagged(x) ==> far(x) && v > 0.0 { FlaggedIsFarther(sc, w, x); }
    if v == 0.0 {
      CountNone(w, flagged);
    } else {
      CountMonotone(w, flagged, far);
      ProductMonotone(t2, t2, v, v);
      FarMembers(w, Mean(w), t2 * v);
      CountTimesVariance(w);
      CancelVariance(Count(w, flagged) as real, Count(w, far) as real, t2, v, |w| as real);
    }
  }

  lemma FlaggedIsFarther(sc: ZScoreScorer, w: seq<real>, x: real)
    requires sc.scoring.MeanStd? && sc.threshold >= 0.0
    ensures FlaggedBy(sc, StateOf(w))(x) ==>
              Variance(w) > 0.0 && FartherThan(Square(sc.threshold) * Variance(w), Mean(w))(x)
  {
    hide Square, Variance, Mean, FlaggedBy;
    FlaggedIsFar(sc, w, x);
  }

  lemma CountTimesVariance(w: seq<real>)
    ensures |w| as real * Variance(w) == SumSqDev(w, Mean(w))
  {
    hide Square, Mean;
    if w == [] {
      assert SquaredDeviations(w, Mean(w)) == [];
    }
  }

  lemma CancelVariance(k: real, f: real, t2: real, v: real, n: real)
    requires 0.0 <= k <= f && t2 >= 0.0 && v > 0.0 && f * (t2 * v) <= n * v
    ensures k * t2 <= n
  {
    assert (f * t2 - n) * v == f * (t2 * v) - n * v <= 0.0;
    assert (f - k) * t2 >= 0.0;
  }

  /** The counterpart for median and MAD: in every reachable state, at a threshold of at least
      0.6745, at most half of the window is flagged against its own baseline. */
  lemma {:induction false} MedianMadBound(sc: ZScoreScorer, ws: seq<Write>)
    requires sc.scoring.MedianMad? && sc.threshold >= ROBUST_Z_CONSTANT
    ensures var s := Replay(ws);
            2 * Count(s.window, FlaggedBy(sc, s)) <= s.count
  {
    hide *;
    ReplayExact(ws);
    var w := WindowOf(ws);
    StateOfFields(w);
    var flagged, far := FlaggedBy(sc, StateOf(w)), DeviatesBy(Mad(w, None), Median(w));
    forall x ensures flagged(x) ==> far(x) { FlaggedDeviates(sc, w, x); }
    CountMonotone(w, flagged, far);
    HalfBeyondMad(w);
  }

  lemma FlaggedDeviates(sc: ZScoreScorer, w: seq<real>, x: real)
    requires sc.scoring.MedianMad? && sc.threshold >= ROBUST_Z_CONSTANT
    ensures FlaggedBy(sc, StateOf(w))(x) ==> DeviatesBy(Mad(w, None), Median(w))(x)
  {
    hide Score, Mean, M2, Median, Mad, Abs, Variance;
    VerdictExact(sc, "", "", ResolveGlobal("", ""), x, w);
    var mad := Mad(w, None);
    if mad > 0.0 {
      ProductMonotone(ROBUST_Z_CONSTANT, sc.threshold, mad, mad);
    }
  }

  // ----- the blind spot -----

  function SpreadOf(scoring: Method, w: seq<real>): real {
    if scoring.MeanStd? then Variance(w) else Mad(w, None)
  }

  /** With a non-negative threshold, a warm bucket can flag some value exactly when its spread is
      not zero: against a constant baseline even the wildest value passes. */
  lemma {:induction false} CanFlagIffSpread(sc: ZScoreScorer, w: seq<real>)
    requires sc.threshold >= 0.0 && |w| >= sc.minSamples
    ensures (exists x :: FlaggedBy(sc, StateOf(w))(x)) <==> SpreadOf(sc.scoring, w) != 0.0
  {
    hide SignedSquare, StateVariance, Variance, Mean, M2, Median, Mad;
    VarianceOfWindow(w);
    var t, g := sc.threshold, SpreadOf(sc.scoring, w);
    var centre := if sc.scoring.MeanStd? then Mean(w) else Median(w);
    if g != 0.0 {
      var d := (t + 1.0) * (Abs(g) + 1.0) * 2.0;
      FarEnough(t, g, d);
      var x := centre + d;
      if sc.scoring.MedianMad? {
        assert w != [] by { MadEmpty(); }
        assert Mad(w, Some(Median(w))) == Mad(w, None) by { MadDefault(w); }
        ThresholdOnSquares(ROBUST_Z_CONSTANT * d / g, t);
      }
      assert FlaggedBy(sc, StateOf(w))(x);
    } else {
      assert Mad(w, Some(Median(w))) == Mad(w, None) by { MadDefault(w); }
      assert SignedSquare(0.0) == 0.0 by { AbsSignedSquare(0.0); }
      SquareNonNegative(t);
    }
  }

  /** When the spread is zero: for mean and deviation exactly when all values are equal, for median
      and MAD exactly when more than half of them equal the median (or there are none). */
  lemma {:induction false} SpreadZeroExact(scoring: Method, w: seq<real>)
    ensures SpreadOf(scoring, w) == 0.0 <==>
              match scoring
              case MeanStd => forall i, j :: 0 <= i < j < |w| ==> w[i] == w[j]
              case MedianMad => w == [] || 2 * Count(w, Equals(Median(w))) > |w|
  {
    hide Variance, Mad, Median, Count;
    VarianceZeroExact(w);
    MadZeroExact(w);
  }

  /** A reachable blind spot: after any warm history of one repeated value, no value is flagged by
      either method, however wild. */
  lemma {:induction false} ConstantHistoryFlagsNothing(sc: ZScoreScorer, ws: seq<Write>, c: real, wild: real)
    requires sc.threshold >= 0.0
    requires forall i :: 0 <= i < |ws| ==> ws[i].value == c
    ensures SpreadOf(sc.scoring, WindowOf(ws)) == 0.0 && Replay(ws) == StateOf(WindowOf(ws))
    ensures !FlaggedBy(sc, Replay(ws))(wild)
  {
    hide Score, Mean, M2, Variance, Mad, Median, Count, ApplyUpdate;
    ReplayExact(ws);
    var w := WindowOf(ws);
    assert forall i :: 0 <= i < |w| ==> w[i] == c;
    SpreadZeroExact(sc.scoring, w);
    if sc.scoring.MedianMad? && w != [] {
      MajorityHoldsMedian(w, c, c) by { CountAll(w, Within(c, c)); }
      CountAll(w, Equals(c));
    }
    if |w| >= sc.minSamples {
      CanFlagIffSpread(sc, w);
    } else {
      VerdictExact(sc, "", "", ResolveGlobal("", ""), wild, w);
    }
  }

  /** For instance five equal values and the default settings: the bucket is warm, and a value of a
      million passes. */
  lemma {:induction false} WildValuePasses(scoring: Method)
    ensures var sc, ws := ZScoreScorer(scoring, 3.0, 5), seq(5, _ => Write(30, 1.0));
            var r := Score(sc, "", "", ResolveGlobal("", ""), 1000000.0, Replay(ws));
            !r.coldStart && !r.isAnomaly
  {
    hide Replay, WindowOf;
    var sc, ws := ZScoreScorer(scoring, 3.0, 5), seq(5, _ => Write(30, 1.0));
    ConstantHistoryFlagsNothing(sc, ws, 1.0, 1000000.0);
    WindowLength(ws, 30);
  }

  lemma MadEmpty()
    ensures Mad([], None) == 0.0
  {
  }

  lemma MadDefault(w: seq<real>)
    ensures Mad(w, Some(Median(w))) == Mad(w, None)
  {
  }

  lemma FarEnough(t: real, g: real, d: real)
    requires t >= 0.0 && g != 0.0 && d == (t + 1.0) * (Abs(g) + 1.0) * 2.0
    ensures Exceeds(SignedSquare(d) / g, t)
    ensures Abs(ROBUST_Z_CONSTANT * d / g) > t
  {
    hide Abs, Square;
    var s, p := t + 1.0, Abs(g) + 1.0;
    AbsNonNegative(g);
    ProductMonotone(t, s, Abs(g), p);
    ProductMonotone(1.0, s, 1.0, p);
    QuotientFar(ROBUST_Z_CONSTANT * d, g, t);
    SquareFar(t, Abs(g), s, p, d);
    AbsSignedSquare(d);
    SquareNonNegative(t);
    QuotientFar(SignedSquare(d), g, Square(t));
  }

  lemma AbsNonNegative(g: real)
    ensures Abs(g) >= 0.0
  {
  }

  lemma SquareFar(t: real, g: real, s: real, p: real, d: real)
    requires t >= 0.0 && g >= 0.0 && s == t + 1.0 && p == g + 1.0 && d == s * p * 2.0
    ensures SignedSquare(d) > Square(t) * g
  {
    ProductMonotone(1.0, s, 1.0, p);
    var sp := s * p;
    ProductMonotone(t, s, t, s);
    ProductMonotone(t * t, s * s, g, p);
    ProductMonotone(1.0, p, p, p);
    ProductMonotone(s * s, s * s, p, p * p);
    assert (s * s) * (p * p) == sp * sp;
    ProductMonotone(1.0, sp, 1.0, sp);
    assert d * d == 4.0 * (sp * sp);
  }

  lemma QuotientFar(x: real, g: real, limit: real)
    requires x > limit * Abs(g) && limit >= 0.0 && g != 0.0
    ensures Abs(x / g) > limit
  {
    var q := x / g;
    assert x == q * g;
    assert Abs(x) == Abs(q) * Abs(g);
    if Abs(q) <= limit {
      ProductMonotone(Abs(q), limit, Abs(g), Abs(g));
    }
  }
}
