/** The per-point cycle: resolve the bucket, fetch its baseline, score, then update
    (phase0/workers/anomaly_scoring_worker.py), for one worker. */
module Worker {
  import opened Wrappers
  import opened Statistics
  import opened Sorting
  import opened RollingBaseline
  import opened BucketKeys
  import opened Scorer
  import opened RobustStats

  type Hour = h: nat | h < 24

  datatype MetricPoint = MetricPoint(vmId: string, metricName: string, hour: Hour, weekday: nat, value: real)

  datatype SeasonalityClassifier = SeasonalityClassifier(nonSeasonal: set<string>, allowlist: Option<set<string>>)

  datatype Config = Config(
    keyPrefix: string, windowSize: int, resolver: AcceptedResolver,
    classifier: SeasonalityClassifier, scorer: ZScoreScorer)

  predicate IsSeasonal(c: SeasonalityClassifier, metricName: string) {
    metricName !in c.nonSeasonal && (c.allowlist.Some? ==> metricName in c.allowlist.value)
  }

  function BucketOf(cfg: Config, p: MetricPoint): (k: BucketKey)
    ensures Printable(k)
  {
    BlockOfHour(cfg.resolver.granularityHours, p.hour);
    if IsSeasonal(cfg.classifier, p.metricName)
    then Resolve(cfg.resolver, p.vmId, p.metricName, p.hour, p.weekday)
    else ResolveGlobal(p.vmId, p.metricName)
  }

  function KeyOf(cfg: Config, p: MetricPoint): string {
    RedisKey(cfg.keyPrefix, BucketOf(cfg, p))
  }

  function ScorePoint(cfg: Config, p: MetricPoint, baseline: BucketState): ScoreResult {
    Score(cfg.scorer, p.vmId, p.metricName, BucketOf(cfg, p), p.value, baseline)
  }

  /** The series has one baseline for all times. */
  predicate HasGlobalBaseline(c: SeasonalityClassifier, metricName: string) {
    metricName in c.nonSeasonal || (c.allowlist.Some? && metricName !in c.allowlist.value)
  }

  /** Which points share a baseline, exactly, when metric names contain no colon: those of the
      same series that, unless its metric is non-seasonal, fall in the same hour block and, when
      split, on the same side of the weekend. */
  lemma {:induction false} SameBaselineExact(cfg: Config, p: MetricPoint, q: MetricPoint)
    requires ':' !in p.metricName && ':' !in q.metricName
    ensures var g := cfg.resolver.granularityHours;
            KeyOf(cfg, p) == KeyOf(cfg, q) <==>
              && p.vmId == q.vmId && p.metricName == q.metricName
              && (|| HasGlobalBaseline(cfg.classifier, p.metricName)
                  || (&& (exists k: int :: InBlock(g, k, p.hour) && InBlock(g, k, q.hour))
                      && (cfg.resolver.splitWeekdayWeekend ==> (p.weekday >= 5 <==> q.weekday >= 5))))
  {
    hide InBlock, RedisKey, Resolve;
    var g := cfg.resolver.granularityHours;
    ResolvedFields(cfg, p);
    ResolvedFields(cfg, q);
    RedisKeyInjective(cfg.keyPrefix, BucketOf(cfg, p), BucketOf(cfg, q));
    if p.vmId == q.vmId && p.metricName == q.metricName && !HasGlobalBaseline(cfg.classifier, p.metricName) {
      assert MakeResolver(g, cfg.resolver.splitWeekdayWeekend) == Ok(cfg.resolver);
      SameBucketExact(g, cfg.resolver.splitWeekdayWeekend, cfg.keyPrefix, p.vmId, p.metricName,
                      p.hour, p.weekday, q.hour, q.weekday);
    }
  }

  lemma ResolvedFields(cfg: Config, p: MetricPoint)
    ensures BucketOf(cfg, p).vmId == p.vmId && BucketOf(cfg, p).metricName == p.metricName
    ensures HasGlobalBaseline(cfg.classifier, p.metricName) ==> BucketOf(cfg, p) == ResolveGlobal(p.vmId, p.metricName)
    ensures !HasGlobalBaseline(cfg.classifier, p.metricName) ==>
              BucketOf(cfg, p) == Resolve(cfg.resolver, p.vmId, p.metricName, p.hour, p.weekday)
  {
  }

  // ----- the reference: no state, every baseline recomputed from the points themselves -----

  /** Values of the points that fall in a bucket. */
  function ValuesIn(cfg: Config, ps: seq<MetricPoint>, key: string): (vs: seq<real>)
    ensures |vs| <= |ps|
  {
    if ps == [] then []
    else
      var vs, p := ValuesIn(cfg, ps[..|ps|-1], key), ps[|ps|-1];
      if KeyOf(cfg, p) == key then vs + [p.value] else vs
  }

  /** Statistics of the last values, at most a window of them, of the points in a bucket. */
  function Baseline(cfg: Config, ps: seq<MetricPoint>, key: string): BucketState {
    StateOf(LastN(ValuesIn(cfg, ps, key), Capacity(cfg.windowSize)))
  }

  /** Each point scored against the baseline of the points before it. */
  function Expected(cfg: Config, ps: seq<MetricPoint>): (rs: seq<ScoreResult>)
    ensures |rs| == |ps|
  {
    if ps == [] then []
    else
      var init, p := ps[..|ps|-1], ps[|ps|-1];
      Expected(cfg, init) + [ScorePoint(cfg, p, Baseline(cfg, init, KeyOf(cfg, p)))]
  }

  predicate IsAnomaly(r: ScoreResult) {
    r.isAnomaly
  }

  /** What the environment does to one point: nothing, or make the read or the update raise
      before anything is committed. */
  datatype Fault = NoFault | GetRaises | UpdateRaises

  datatype Delivery = Delivery(point: MetricPoint, fault: Fault)

  function Survivors(ds: seq<Delivery>): (ps: seq<MetricPoint>)
    ensures |ps| <= |ds|
  {
    if ds == [] then []
    else
      var ps, d := Survivors(ds[..|ds|-1]), ds[|ds|-1];
      if d.fault.NoFault? then ps + [d.point] else ps
  }

  class AnomalyScoringWorker {
    const cfg: Config
    var store: map<string, BucketState>
    var pointsProcessedTotal: nat
    var anomaliesFlaggedTotal: nat
    ghost var processed: seq<MetricPoint>

    /** The store holds exactly the reference baselines of the processed points, and the
        counters count their results. */
    ghost predicate Valid()
      reads this
    {
      && (forall key: string :: key in store <==> ValuesIn(cfg, processed, key) != [])
      && (forall key: string :: key in store ==> store[key] == Baseline(cfg, processed, key))
      && pointsProcessedTotal == |processed|
      && anomaliesFlaggedTotal == Count(Expected(cfg, processed), IsAnomaly)
    }

    constructor (cfg: Config)
      ensures Valid() && this.cfg == cfg && processed == []
    {
      this.cfg := cfg;
      store := map[];
      pointsProcessedTotal, anomaliesFlaggedTotal := 0, 0;
      processed := [];
    }

    /** get_bucket_state, with a fresh state for a bucket never written. */
    function Fetch(key: string): BucketState
      reads this
    {
      if key in store then store[key] else EMPTY_BUCKET
    }

    /** Scores against the baseline as it stood before the point, then folds the point in. A
        point whose read or update raises leaves no trace; other buckets are never touched. */
    method ProcessPoint(d: Delivery) returns (r: Option<ScoreResult>)
      requires Valid()
      modifies this`store, this`processed
      ensures r.None? <==> !d.fault.NoFault?
      ensures r.None? ==> store == old(store) && processed == old(processed)
      ensures r.Some? ==>
                && processed == old(processed) + [d.point]
                && r.value == ScorePoint(cfg, d.point, Baseline(cfg, old(processed), KeyOf(cfg, d.point)))
                && Expected(cfg, processed) == old(Expected(cfg, processed)) + [r.value]
                && (forall key: string :: key in store <==> ValuesIn(cfg, processed, key) != [])
                && (forall key: string :: key in store ==> store[key] == Baseline(cfg, processed, key))
      ensures forall key: string :: key != KeyOf(cfg, d.point) ==>
                (key in store <==> key in old(store)) && (key in store ==> store[key] == old(store)[key])
    {
      hide Baseline, ScorePoint, KeyOf, ApplyUpdate;
      if d.fault.GetRaises? {
        return None;
      }
      var p := d.point;
      var key := KeyOf(cfg, p);
      var baseline := Fetch(key);
      FetchIsBaseline(cfg, processed, key);
      var result := ScorePoint(cfg, p, baseline);
      if d.fault.UpdateRaises? {
        return None;
      }
      store := store[key := ApplyUpdate(cfg.windowSize, baseline, p.value)];
      forall k: string ensures ValuesIn(cfg, processed + [p], k) ==
          if k == key then ValuesIn(cfg, processed, k) + [p.value] else ValuesIn(cfg, processed, k)
        ensures k != key ==> Baseline(cfg, processed + [p], k) == Baseline(cfg, processed, k)
      {
        ValuesInSnoc(cfg, processed, p, k);
      }
      BaselineSnoc(cfg, processed, p);
      assert (processed + [p])[..|processed|] == processed;
      processed := processed + [p];
      r := Some(result);
    }

    /** One bad point never stops the batch, and `published` is what the callback was given,
        whether or not it raised. */
    method ProcessBatch(ds: seq<Delivery>) returns (results: seq<ScoreResult>, published: seq<ScoreResult>)
      requires Valid()
      modifies this
      ensures Valid()
      ensures processed == old(processed) + Survivors(ds)
      ensures results == Expected(cfg, processed)[|old(processed)|..]
      ensures published == results
    {
      hide Baseline, ScorePoint, KeyOf, ValuesIn, Expected, Count, Survivors;
      results, published := [], [];
      SurvivorsStep(ds, 0);
      for i := 0 to |ds|
        invariant Valid()
        invariant processed == old(processed) + Survivors(ds[..i])
        invariant Expected(cfg, processed) == old(Expected(cfg, processed)) + results
        invariant published == results
      {
        SurvivorsStep(ds, i);
        ghost var expected := Expected(cfg, processed);
        var r := ProcessPoint(ds[i]);
        if r.Some? {
          CountSnoc(expected, r.value, IsAnomaly);
          results := results + [r.value];
          pointsProcessedTotal := pointsProcessedTotal + 1;
          if r.value.isAnomaly {
            anomaliesFlaggedTotal := anomaliesFlaggedTotal + 1;
          }
          published := published + [r.value];
        }
      }
      assert ds[..|ds|] == ds;
    }
  }

  lemma SurvivorsStep(ds: seq<Delivery>, i: nat)
    ensures Survivors(ds[..0]) == []
    ensures i < |ds| && ds[i].fault.NoFault? ==> Survivors(ds[..i+1]) == Survivors(ds[..i]) + [ds[i].point]
    ensures i < |ds| && !ds[i].fault.NoFault? ==> Survivors(ds[..i+1]) == Survivors(ds[..i])
  {
    assert ds[..0] == [];
    if i < |ds| {
      assert ds[..i+1][..i] == ds[..i];
    }
  }

  lemma ValuesInSnoc(cfg: Config, ps: seq<MetricPoint>, p: MetricPoint, key: string)
    ensures ValuesIn(cfg, ps + [p], key) ==
            if KeyOf(cfg, p) == key then ValuesIn(cfg, ps, key) + [p.value] else ValuesIn(cfg, ps, key)
    ensures KeyOf(cfg, p) != key ==> Baseline(cfg, ps + [p], key) == Baseline(cfg, ps, key)
  {
    hide KeyOf, StateOf, LastN;
    assert (ps + [p])[..|ps|] == ps;
  }

  lemma FetchIsBaseline(cfg: Config, ps: seq<MetricPoint>, key: string)
    ensures ValuesIn(cfg, ps, key) == [] ==> Baseline(cfg, ps, key) == EMPTY_BUCKET
  {
    EmptyStatistics();
  }

  /** The incremental update of the stored state is the reference baseline of one more point. */
  lemma {:induction false} BaselineSnoc(cfg: Config, ps: seq<MetricPoint>, p: MetricPoint)
    ensures ApplyUpdate(cfg.windowSize, Baseline(cfg, ps, KeyOf(cfg, p)), p.value) ==
            Baseline(cfg, ps + [p], KeyOf(cfg, p))
  {
    hide KeyOf, StateOf, ApplyUpdate;
    var vs := ValuesIn(cfg, ps, KeyOf(cfg, p));
    ApplyUpdateExact(cfg.windowSize, LastN(vs, Capacity(cfg.windowSize)), p.value);
    ValuesInSnoc(cfg, ps, p, KeyOf(cfg, p));
    SlideLastN(vs, cfg.windowSize, p.value);
  }

  lemma SlideLastN(vs: seq<real>, windowSize: int, v: real)
    ensures Slide(windowSize, LastN(vs, Capacity(windowSize)), v) == LastN(vs + [v], Capacity(windowSize))
  {
  }

  // ----- what the results say -----

  /** The last values, at most windowSize of them, of the earlier points in the same bucket. */
  function EarlierWindow(cfg: Config, ps: seq<MetricPoint>, i: nat): seq<real>
    requires i < |ps|
  {
    LastN(ValuesIn(cfg, ps[..i], KeyOf(cfg, ps[i])), Capacity(cfg.windowSize))
  }

  /** Every result of a run, in terms of the points alone: it names its point and bucket, is cold exactly when
      fewer than minSamples earlier values are known, reports their statistics, and flags the point
      exactly when it is warm and lies beyond the configured threshold. */
  lemma {:induction false} ResultsExact(cfg: Config, ps: seq<MetricPoint>, i: nat)
    requires i < |ps|
    ensures var r, p, w := Expected(cfg, ps)[i], ps[i], EarlierWindow(cfg, ps, i);
            && r.vmId == p.vmId && r.metricName == p.metricName && r.value == p.value
            && r.bucketKey == BucketOf(cfg, p)
            && (r.coldStart <==> |w| < cfg.scorer.minSamples)
            && (r.isAnomaly <==>
                  && |w| >= cfg.scorer.minSamples
                  && (cfg.scorer.threshold < 0.0 || Beyond(cfg.scorer.scoring, cfg.scorer.threshold, p.value, w)))
            && (r.coldStart || cfg.scorer.scoring.MeanStd? ==>
                  r.baselineMean == Mean(w) && r.baselineSpread == StdSquared(Variance(w)))
            && (!r.coldStart && cfg.scorer.scoring.MedianMad? ==>
                  r.baselineMean == Median(w) && r.baselineSpread == MedianDeviation(Mad(w, None)))
  {
    hide Score, StateOf, LastN, KeyOf, BucketOf, Mean, Variance, Median, Mad, Beyond;
    ResultAt(cfg, ps, i);
    var p := ps[i];
    VerdictExact(cfg.scorer, p.vmId, p.metricName, BucketOf(cfg, p), p.value, EarlierWindow(cfg, ps, i));
  }

  lemma ResultAt(cfg: Config, ps: seq<MetricPoint>, i: nat)
    requires i < |ps|
    ensures var p := ps[i];
            Expected(cfg, ps)[i] == Score(cfg.scorer, p.vmId, p.metricName, BucketOf(cfg, p), p.value,
                                          StateOf(EarlierWindow(cfg, ps, i)))
  {
    hide Score, StateOf, LastN, KeyOf, BucketOf;
    Causal(cfg, ps, i + 1);
    assert Expected(cfg, ps)[i] == Expected(cfg, ps[..i+1])[i];
    assert ps[..i+1][..i] == ps[..i];
  }

  /** The z of a warm result, sign included, for the z of the source over the earlier values. */
  lemma {:induction false} ReportedZ(cfg: Config, ps: seq<MetricPoint>, i: nat, z: real, std: real)
    requires i < |ps| && |EarlierWindow(cfg, ps, i)| >= cfg.scorer.minSamples
    requires IsZ(cfg.scorer.scoring, z, std, ps[i].value, EarlierWindow(cfg, ps, i))
    ensures Expected(cfg, ps)[i].signedSquareZ == (if z < 0.0 then -(z * z) else z * z)
    ensures Expected(cfg, ps)[i].isAnomaly <==> (if z < 0.0 then -z else z) > cfg.scorer.threshold
  {
    hide Score, StateOf, LastN, KeyOf, BucketOf, IsZ;
    ResultAt(cfg, ps, i);
    var p := ps[i];
    ReportedZExact(cfg.scorer, p.vmId, p.metricName, BucketOf(cfg, p), p.value, EarlierWindow(cfg, ps, i), z, std);
  }

  /** The values a bucket has seen are those of its points, in order. */
  lemma {:induction false} ValuesInExact(cfg: Config, ps: seq<MetricPoint>, key: string, i: nat)
    requires i < |ps|
    ensures ValuesIn(cfg, [], key) == []
    ensures ValuesIn(cfg, ps[..i+1], key) ==
            ValuesIn(cfg, ps[..i], key) + (if KeyOf(cfg, ps[i]) == key then [ps[i].value] else [])
  {
    hide KeyOf;
    assert ps[..i+1][..i] == ps[..i];
  }

  // ----- consequences of the reference -----

  /** Results never depend on later points. */
  lemma {:induction false} Causal(cfg: Config, ps: seq<MetricPoint>, n: nat)
    requires n <= |ps|
    ensures Expected(cfg, ps[..n]) == Expected(cfg, ps)[..n]
  {
    hide ScorePoint, Baseline;
    if n < |ps| {
      var init := ps[..|ps|-1];
      Causal(cfg, init, n);
      assert init[..n] == ps[..n];
    } else {
      assert ps[..n] == ps;
    }
  }

  function OnlyBucket(cfg: Config, ps: seq<MetricPoint>, key: string): seq<MetricPoint> {
    if ps == [] then []
    else
      var rest, p := OnlyBucket(cfg, ps[..|ps|-1], key), ps[|ps|-1];
      if KeyOf(cfg, p) == key then rest + [p] else rest
  }

  lemma {:induction false} ValuesInOnlyBucket(cfg: Config, ps: seq<MetricPoint>, key: string)
    ensures ValuesIn(cfg, OnlyBucket(cfg, ps, key), key) == ValuesIn(cfg, ps, key)
  {
    hide KeyOf;
    if ps != [] {
      var init, p := ps[..|ps|-1], ps[|ps|-1];
      ValuesInOnlyBucket(cfg, init, key);
      ValuesInSnoc(cfg, OnlyBucket(cfg, init, key), p, key);
    }
  }

  /** Results never depend on other buckets: a point gets the result it would get if only its
      own bucket's points had ever been processed. */
  lemma {:induction false} BucketsAreIsolated(cfg: Config, ps: seq<MetricPoint>, i: nat)
    requires i < |ps|
    ensures var own := OnlyBucket(cfg, ps[..i], KeyOf(cfg, ps[i])) + [ps[i]];
            Expected(cfg, ps)[i] == Expected(cfg, own)[|own| - 1]
  {
    hide KeyOf, ScorePoint;
    var key := KeyOf(cfg, ps[i]);
    var own := OnlyBucket(cfg, ps[..i], key) + [ps[i]];
    Causal(cfg, ps, i + 1);
    assert Expected(cfg, ps)[i] == Expected(cfg, ps[..i+1])[i];
    assert ps[..i+1][..i] == ps[..i];
    assert own[..|own|-1] == OnlyBucket(cfg, ps[..i], key);
    ValuesInOnlyBucket(cfg, ps[..i], key);
  }

  // ----- change of units -----

  datatype UnitChange = UnitChange(slope: real, offset: real)

  /** The point with its value in its bucket's new unit; the bucket itself does not change. */
  function ConvertPoint(cfg: Config, p: MetricPoint, units: string -> UnitChange): (q: MetricPoint)
    ensures KeyOf(cfg, q) == KeyOf(cfg, p)
  {
    var u := units(KeyOf(cfg, p));
    p.(value := Rescale(u.slope, u.offset, p.value))
  }

  function Convert(cfg: Config, ps: seq<MetricPoint>, units: string -> UnitChange): (qs: seq<MetricPoint>)
    ensures |qs| == |ps|
  {
    if ps == [] then [] else Convert(cfg, ps[..|ps|-1], units) + [ConvertPoint(cfg, ps[|ps|-1], units)]
  }

  lemma {:induction false} ValuesInConverted(cfg: Config, ps: seq<MetricPoint>,
                                             units: string -> UnitChange, key: string)
    ensures ValuesIn(cfg, Convert(cfg, ps, units), key) ==
            Affine(ValuesIn(cfg, ps, key), units(key).slope, units(key).offset)
  {
    hide KeyOf, Rescale;
    if ps != [] {
      var init, p := ps[..|ps|-1], ps[|ps|-1];
      ValuesInConverted(cfg, init, units, key);
      ValuesInSnoc(cfg, Convert(cfg, init, units), ConvertPoint(cfg, p, units), key);
    }
  }

  lemma LastNAffine(vs: seq<real>, n: nat, a: real, b: real)
    ensures LastN(Affine(vs, a, b), n) == Affine(LastN(vs, n), a, b)
  {
    hide Rescale;
  }

  /** Changing the units of every bucket, each in its own way, changes no verdict anywhere in
      the run, for both scoring methods. */
  lemma {:induction false} UnitsNeverChangeVerdicts(cfg: Config, ps: seq<MetricPoint>,
                                                    units: string -> UnitChange, i: nat)
    requires forall key :: units(key).slope != 0.0
    requires i < |ps|
    ensures var r, r' := Expected(cfg, ps)[i], Expected(cfg, Convert(cfg, ps, units))[i];
            r'.coldStart == r.coldStart && r'.isAnomaly == r.isAnomaly && r'.bucketKey == r.bucketKey
  {
    hide KeyOf, Rescale, Score, StateOf, LastN;
    var init, p := ps[..|ps|-1], ps[|ps|-1];
    var qs := Convert(cfg, ps, units);
    assert qs[..|qs|-1] == Convert(cfg, init, units);
    if i < |init| {
      UnitsNeverChangeVerdicts(cfg, init, units, i);
    } else {
      var key := KeyOf(cfg, p);
      var u, vs := units(key), ValuesIn(cfg, init, key);
      ValuesInConverted(cfg, init, units, key);
      LastNAffine(vs, Capacity(cfg.windowSize), u.slope, u.offset);
      ScoreUnits(cfg.scorer, p.vmId, p.metricName, BucketOf(cfg, p), p.value,
                 LastN(vs, Capacity(cfg.windowSize)), u.slope, u.offset);
      ScoreKeepsKey(cfg, p, Baseline(cfg, init, key));
      ScoreKeepsKey(cfg, ConvertPoint(cfg, p, units), Baseline(cfg, Convert(cfg, init, units), key));
    }
  }

  lemma ScoreKeepsKey(cfg: Config, p: MetricPoint, s: BucketState)
    ensures ScorePoint(cfg, p, s).bucketKey == BucketOf(cfg, p)
  {
  }
}
