/** Per-metric mean and variance in one pass over the row groups
    (phase1/data/streaming_aug_pairs_dataset.py, compute_metric_value_stats). */
module StreamingStats {
  import opened Wrappers
  import opened Statistics
  import opened Welford
  import opened Lists

  const AUG_VALUE_NORM_EPS := 0.000001

  /** A missing value counts as 0.0; a row without a metric name is dropped by the grouping. */
  datatype Row = Row(metricName: Option<string>, value: Option<real>)

  function Filled(r: Row): real {
    if r.value.Some? then r.value.value else 0.0
  }

  function MetricValues(rows: seq<Row>, name: string): seq<real> {
    if rows == [] then []
    else
      var vs, r := MetricValues(rows[..|rows|-1], name), rows[|rows|-1];
      if r.metricName == Some(name) then vs + [Filled(r)] else vs
  }

  /** The variance is kept instead of the standard deviation; the floor is squared with it. */
  datatype MetricStats = MetricStats(mean: real, variance: real, flooredStdSquared: real)

  function Floor(variance: real): real {
    if variance > Square(AUG_VALUE_NORM_EPS) then variance else Square(AUG_VALUE_NORM_EPS)
  }

  function ExactStats(vs: seq<real>): MetricStats {
    MetricStats(Mean(vs), Variance(vs), Floor(Variance(vs)))
  }

  // ----- grouping within one row group, as the data-frame library does it -----

  function Names(rows: seq<Row>): set<string> {
    set r | r in rows && r.metricName.Some? :: r.metricName.value
  }

  datatype Totals = Totals(sum: real, sumSq: real, count: nat)

  function GroupTotals(rows: seq<Row>, name: string): Totals {
    var vs := MetricValues(rows, name);
    Totals(Sum(vs), SumSq(vs), |vs|)
  }

  lemma {:induction false} NamesExact(rows: seq<Row>, name: string)
    ensures name in Names(rows) <==> MetricValues(rows, name) != []
  {
    if rows != [] {
      var init, r := rows[..|rows|-1], rows[|rows|-1];
      NamesExact(init, name);
      assert rows == init + [r];
      assert name in Names(rows) <==> name in Names(init) || r.metricName == Some(name);
    }
  }

  lemma {:induction false} MetricValuesConcat(a: seq<Row>, b: seq<Row>, name: string)
    ensures MetricValues(a + b, name) == MetricValues(a, name) + MetricValues(b, name)
  {
    if b == [] {
      assert a + b == a;
    } else {
      MetricValuesConcat(a, b[..|b|-1], name);
      assert (a + b)[..|a + b|-1] == a + b[..|b|-1];
    }
  }

  lemma TotalsConcat(a: seq<Row>, b: seq<Row>, name: string)
    ensures var t, u := GroupTotals(a, name), GroupTotals(b, name);
            GroupTotals(a + b, name) == Totals(t.sum + u.sum, t.sumSq + u.sumSq, t.count + u.count)
  {
    hide Sum, SumSqDev;
    var vs, ws := MetricValues(a, name), MetricValues(b, name);
    MetricValuesConcat(a, b, name);
    SumConcat(vs, ws);
    SumSqDevConcat(vs, ws, 0.0);
  }

  // ----- the pass -----

  /** The three running dictionaries hold the totals of the rows read so far. */
  ghost predicate Accumulated(sums: map<string, real>, sumsSq: map<string, real>, counts: map<string, nat>,
                              rows: seq<Row>) {
    sums.Keys == sumsSq.Keys == counts.Keys
    && (forall name :: name in counts <==> name in Names(rows))
    && (forall name :: name in counts ==> Totals(sums[name], sumsSq[name], counts[name]) == GroupTotals(rows, name))
  }

  function GetOr<T>(m: map<string, T>, name: string, default: T): T {
    if name in m then m[name] else default
  }

  lemma AbsentTotals(rows: seq<Row>, name: string)
    requires name !in Names(rows)
    ensures GroupTotals(rows, name) == Totals(0.0, 0.0, 0)
  {
    NamesExact(rows, name);
    assert SquaredDeviations([], 0.0) == [];
  }

  /** Half-way through a row group: the names in `done` already include it. */
  ghost predicate Partly(sums: map<string, real>, sumsSq: map<string, real>, counts: map<string, nat>,
                         earlier: seq<Row>, group: seq<Row>, done: set<string>) {
    sums.Keys == sumsSq.Keys == counts.Keys == Names(earlier) + done
    && forall name :: name in counts ==>
         Totals(sums[name], sumsSq[name], counts[name]) ==
         GroupTotals(if name in done then earlier + group else earlier, name)
  }

  lemma PartlyStep(sums: map<string, real>, sumsSq: map<string, real>, counts: map<string, nat>,
                   earlier: seq<Row>, group: seq<Row>, done: set<string>, name: string)
    requires Partly(sums, sumsSq, counts, earlier, group, done) && name !in done
    ensures var t := GroupTotals(group, name);
            Partly(sums[name := GetOr(sums, name, 0.0) + t.sum],
                   sumsSq[name := GetOr(sumsSq, name, 0.0) + t.sumSq],
                   counts[name := GetOr(counts, name, 0) + t.count], earlier, group, done + {name})
  {
    hide GroupTotals, Names;
    TotalsConcat(earlier, group, name);
    if name !in counts {
      AbsentTotals(earlier, name);
    }
  }

  lemma PartlyStart(sums: map<string, real>, sumsSq: map<string, real>, counts: map<string, nat>,
                    earlier: seq<Row>, group: seq<Row>)
    requires Accumulated(sums, sumsSq, counts, earlier)
    ensures Partly(sums, sumsSq, counts, earlier, group, {})
  {
    hide GroupTotals, Names;
    assert counts.Keys == Names(earlier) + {};
  }

  lemma PartlyDone(sums: map<string, real>, sumsSq: map<string, real>, counts: map<string, nat>,
                   earlier: seq<Row>, group: seq<Row>)
    requires Partly(sums, sumsSq, counts, earlier, group, Names(group))
    ensures Accumulated(sums, sumsSq, counts, earlier + group)
  {
    hide GroupTotals;
    assert Names(earlier + group) == Names(earlier) + Names(group);
    hide Names;
    forall name | name in counts
      ensures Totals(sums[name], sumsSq[name], counts[name]) == GroupTotals(earlier + group, name)
    {
      if name !in Names(group) {
        TotalsConcat(earlier, group, name);
        AbsentTotals(group, name);
      }
    }
  }

  /** Adds one row group's grouped totals to the running ones, name by name. */
  method AddRowGroup(sums0: map<string, real>, sumsSq0: map<string, real>, counts0: map<string, nat>,
                     group: seq<Row>, ghost earlier: seq<Row>)
    returns (sums: map<string, real>, sumsSq: map<string, real>, counts: map<string, nat>)
    requires Accumulated(sums0, sumsSq0, counts0, earlier)
    ensures Accumulated(sums, sumsSq, counts, earlier + group)
  {
    hide GroupTotals, Partly, Names, Accumulated;
    sums, sumsSq, counts := sums0, sumsSq0, counts0;
    var left := Names(group);
    assert Names(group) - left == {};
    PartlyStart(sums, sumsSq, counts, earlier, group);
    while left != {}
      invariant left <= Names(group)
      invariant Partly(sums, sumsSq, counts, earlier, group, Names(group) - left)
      decreases |left|
    {
      var name :| name in left;
      var t := GroupTotals(group, name);
      PartlyStep(sums, sumsSq, counts, earlier, group, Names(group) - left, name);
      sums := sums[name := GetOr(sums, name, 0.0) + t.sum];
      sumsSq := sumsSq[name := GetOr(sumsSq, name, 0.0) + t.sumSq];
      counts := counts[name := GetOr(counts, name, 0) + t.count];
      assert Names(group) - (left - {name}) == Names(group) - left + {name};
      left := left - {name};
    }
    assert Names(group) - left == Names(group);
    PartlyDone(sums, sumsSq, counts, earlier, group);
  }

  /** The values of a metric: those of its rows, in order, a missing one counting as 0.0. */
  lemma {:induction false} MetricValuesExact(rows: seq<Row>, name: string, i: nat)
    requires i < |rows|
    ensures MetricValues([], name) == []
    ensures MetricValues(rows[..i+1], name) ==
            MetricValues(rows[..i], name) +
            (if rows[i].metricName == Some(name) then [if rows[i].value.None? then 0.0 else rows[i].value.value] else [])
  {
    assert rows[..i+1][..i] == rows[..i];
  }

  /** The deviation the source returns: the root of the variance, but at least 0.000001. */
  lemma {:induction false} FloorExact(vs: seq<real>, std: real, floored: real)
    requires std >= 0.0 && std * std == Variance(vs)
    requires floored == if std > 0.000001 then std else 0.000001
    ensures ExactStats(vs).flooredStdSquared == floored * floored
  {
    hide Mean, Variance;
    var eps := AUG_VALUE_NORM_EPS;
    if std > eps {
      ProductPositive(std - eps, std + eps, std * std - eps * eps);
    } else {
      ProductMonotone(std, eps, std, eps);
    }
  }

  /** Mean and variance from the totals, with the source's clamp at zero. */
  function StatsFromTotals(sum: real, sumSq: real, n: nat): MetricStats
    requires n != 0
  {
    var mean := sum / n as real;
    var raw := sumSq / n as real - mean * mean;
    var variance := if raw > 0.0 then raw else 0.0;
    MetricStats(mean, variance, Floor(variance))
  }

  /** The statistics so far are those of the rows. */
  ghost predicate Exact(stats: map<string, MetricStats>, rows: seq<Row>) {
    forall name :: name in stats ==> stats[name] == ExactStats(MetricValues(rows, name))
  }

  lemma ExactStep(stats: map<string, MetricStats>, rows: seq<Row>, name: string, sum: real, sumSq: real, n: nat)
    requires Exact(stats, rows) && name in Names(rows) && GroupTotals(rows, name) == Totals(sum, sumSq, n)
    ensures n != 0 && Exact(stats[name := StatsFromTotals(sum, sumSq, n)], rows)
  {
    hide GroupTotals, MetricValues, ExactStats, Names, StatsFromTotals;
    TotalsToStats(rows, name, sum, sumSq, n);
  }

  /** Turns the totals into statistics, name by name. */
  method Finish(sums: map<string, real>, sumsSq: map<string, real>, counts: map<string, nat>, ghost rows: seq<Row>)
    returns (stats: map<string, MetricStats>)
    requires Accumulated(sums, sumsSq, counts, rows)
    ensures stats.Keys == Names(rows) && Exact(stats, rows)
  {
    hide GroupTotals, MetricValues, ExactStats, Names, StatsFromTotals;
    stats := map[];
    var left := counts.Keys;
    assert Exact(stats, rows);
    hide Exact;
    while left != {}
      invariant left <= counts.Keys && stats.Keys == counts.Keys - left && Exact(stats, rows)
      decreases |left|
    {
      var name :| name in left;
      var n := counts[name];
      ExactStep(stats, rows, name, sums[name], sumsSq[name], n);
      if n != 0 {
        stats := stats[name := StatsFromTotals(sums[name], sumsSq[name], n)];
      }
      left := left - {name};
    }
    assert stats.Keys == counts.Keys;
  }

  /** The statistics of every metric are its exact mean and population variance over all rows of
      the file: the layout into row groups does not matter and the clamp at zero never acts. */
  method ComputeMetricValueStats(rowGroups: seq<seq<Row>>) returns (stats: map<string, MetricStats>)
    ensures forall name :: name in stats <==> MetricValues(Flatten(rowGroups), name) != []
    ensures forall name :: name in stats ==>
              var vs := MetricValues(Flatten(rowGroups), name);
              && stats[name].mean == Mean(vs)
              && stats[name].variance == Variance(vs)
              && stats[name].flooredStdSquared ==
                 (if Variance(vs) > 0.000001 * 0.000001 then Variance(vs) else 0.000001 * 0.000001)
  {
    hide Mean, Variance, Accumulated, MetricValues, Names;
    var sums: map<string, real>, sumsSq: map<string, real>, counts: map<string, nat> := map[], map[], map[];
    assert rowGroups[..0] == [];
    NothingAccumulated();
    for rg := 0 to |rowGroups|
      invariant Accumulated(sums, sumsSq, counts, Flatten(rowGroups[..rg]))
    {
      FlattenSnoc(rowGroups[..rg], rowGroups[rg]);
      assert rowGroups[..rg+1] == rowGroups[..rg] + [rowGroups[rg]];
      sums, sumsSq, counts := AddRowGroup(sums, sumsSq, counts, rowGroups[rg], Flatten(rowGroups[..rg]));
    }
    assert rowGroups[..|rowGroups|] == rowGroups;
    stats := Finish(sums, sumsSq, counts, Flatten(rowGroups));
    forall name ensures name in stats <==> MetricValues(Flatten(rowGroups), name) != [] {
      NamesExact(Flatten(rowGroups), name);
    }
  }

  /** Whatever the totals, consistent or not, the variance is never negative. */
  lemma VarianceClamped(sum: real, sumSq: real, n: nat)
    requires n != 0
    ensures var raw := sumSq / n as real - (sum / n as real) * (sum / n as real);
            StatsFromTotals(sum, sumSq, n).variance == if raw >= 0.0 then raw else 0.0
  {
  }

  lemma NothingAccumulated()
    ensures Accumulated(map[], map[], map[], [])
  {
  }

  lemma TotalsToStats(rows: seq<Row>, name: string, sum: real, sumSq: real, n: nat)
    requires name in Names(rows) && GroupTotals(rows, name) == Totals(sum, sumSq, n)
    ensures n != 0
    ensures StatsFromTotals(sum, sumSq, n) == ExactStats(MetricValues(rows, name))
  {
    hide Square, Variance, Floor, SumSq, Sum, MetricValues;
    NamesExact(rows, name);
    VarianceFromSums(MetricValues(rows, name));
  }

  lemma VarianceFromSums(vs: seq<real>)
    requires vs != []
    ensures SumSq(vs) / |vs| as real - Mean(vs) * Mean(vs) == Variance(vs) >= 0.0
  {
    hide Square, M2, SumSq, Sum;
    M2FromSums(vs);
    var n := |vs| as real;
    QuotientOfDifference(SumSq(vs), Mean(vs), Sum(vs), n);
    M2NonNegative(vs);
  }

  lemma M2NonNegative(vs: seq<real>)
    ensures M2(vs) >= 0.0
  {
    hide Square;
    SumSqDevNonNegative(vs, Mean(vs));
  }

  lemma QuotientOfDifference(q: real, c: real, s: real, n: real)
    requires n > 0.0
    ensures (q - c * s) / n == q / n - c * (s / n)
  {
    var a, b := q / n, s / n;
    assert n * a == q && n * b == s;
    assert n * (a - c * b) == q - c * s by { assert n * (c * b) == c * (n * b); }
    DivideExact(n, a - c * b);
  }

  /** The two ways of keeping statistics agree: the streaming totals and a Welford fold over the
      same values give the same mean and variance. */
  lemma {:induction false} StreamingAgreesWithWelford(vs: seq<real>)
    requires vs != []
    ensures Fold(vs).mean == ExactStats(vs).mean
    ensures Fold(vs).m2 / Fold(vs).count as real == ExactStats(vs).variance
  {
    hide Mean, M2;
    FoldExact(vs);
  }
}
