/** Median and median absolute deviation of a window
    (phase0/baseline/robust_stats_accumulator.py). */
module RobustStats {
  import opened Wrappers
  import opened Statistics
  import opened Sorting

  const ROBUST_Z_CONSTANT := 0.6745

  predicate AtMost(x: real, y: real) {
    x <= y
  }

  function Abs(x: real): real {
    if x < 0.0 then -x else x
  }

  function OrderStatistic(xs: seq<real>, k: nat): real
    requires k < |xs|
  {
    Sort(xs, AtMost)[k]
  }

  /** Python's statistics.median, and 0.0 for an empty window. */
  function Median(xs: seq<real>): real {
    if xs == [] then 0.0
    else if |xs| % 2 == 1 then OrderStatistic(xs, |xs| / 2)
    else (OrderStatistic(xs, |xs| / 2 - 1) + OrderStatistic(xs, |xs| / 2)) / 2.0
  }

  function AbsDeviations(xs: seq<real>, m: real): (ds: seq<real>)
    ensures |ds| == |xs|
    ensures forall i :: 0 <= i < |xs| ==> ds[i] == Abs(xs[i] - m)
  {
    seq(|xs|, i requires 0 <= i < |xs| => Abs(xs[i] - m))
  }

  function Mad(xs: seq<real>, medianValue: Option<real>): real {
    if xs == [] then 0.0
    else
      var m := if medianValue.Some? then medianValue.value else Median(xs);
      Median(AbsDeviations(xs, m))
  }

  function RobustZScore(value: real, xs: seq<real>): real {
    if xs == [] then 0.0
    else
      var m := Median(xs);
      var mad := Mad(xs, Some(m));
      if mad == 0.0 then 0.0 else ROBUST_Z_CONSTANT * (value - m) / mad
  }

  // ----- order statistics by counting: a reference without sorting -----

  function Below(v: real): real -> bool {
    x => x < v
  }

  function UpTo(v: real): real -> bool {
    x => x <= v
  }

  /** v is the k-th smallest: at most k values lie below it, more than k do not lie above it. */
  predicate IsOrderStatistic(xs: seq<real>, k: nat, v: real) {
    Count(xs, Below(v)) <= k < Count(xs, UpTo(v))
  }

  lemma AtMostIsOrder()
    ensures IsOrder(AtMost)
  {
  }

  lemma OrderStatisticCounts(xs: seq<real>, k: nat)
    requires k < |xs|
    ensures IsOrderStatistic(xs, k, OrderStatistic(xs, k))
  {
    hide Count, Sort;
    var s, w := Sort(xs, AtMost), OrderStatistic(xs, k);
    AtMostIsOrder();
    SortSorts(xs, AtMost);
    forall i, j | 0 <= i < j < |s| ensures s[i] <= s[j] { assert AtMost(s[i], s[j]); }
    SortCount(xs, AtMost, Below(w));
    SortCount(xs, AtMost, UpTo(w));
    CountAtMostPrefix(s, k, Below(w));
    CountAtLeastPrefix(s, k, UpTo(w));
  }

  lemma OrderStatisticUnique(xs: seq<real>, k: nat, v: real, w: real)
    requires IsOrderStatistic(xs, k, v) && IsOrderStatistic(xs, k, w)
    ensures v == w
  {
    hide Count;
    if v < w {
      CountMonotone(xs, UpTo(v), Below(w));
    } else if w < v {
      CountMonotone(xs, UpTo(w), Below(v));
    }
  }

  /** The sorted position and the counting definition agree, both ways. */
  lemma {:induction false} OrderStatisticExact(xs: seq<real>, k: nat, v: real)
    requires k < |xs|
    ensures IsOrderStatistic(xs, k, v) <==> v == OrderStatistic(xs, k)
  {
    hide OrderStatistic, IsOrderStatistic;
    OrderStatisticCounts(xs, k);
    if IsOrderStatistic(xs, k, v) {
      OrderStatisticUnique(xs, k, v, OrderStatistic(xs, k));
    }
  }

  /** The median of no, one and two values, and the deviation of an empty window. */
  lemma {:induction false} SmallMedians(x: real, y: real)
    ensures Median([]) == 0.0 && Mad([], None) == 0.0
    ensures Median([x]) == x
    ensures Median([x, y]) == (x + y) / 2.0
  {
    var xs := [x, y];
    assert xs[..1] == [x] && [x][..0] == [] && xs[..1][..0] == [];
    assert Sort([x], AtMost) == [x];
    assert Sort(xs, AtMost) == Insert([x], y, AtMost);
    assert [x][..0] == [];
    assert Insert([], y, AtMost) == [y];
  }

  // ----- change of units -----

  lemma RescaleOrder(a: real, b: real, x: real, y: real)
    ensures a > 0.0 ==> (Rescale(a, b, x) < Rescale(a, b, y) <==> x < y)
    ensures a < 0.0 ==> (Rescale(a, b, x) < Rescale(a, b, y) <==> y < x)
  {
    assert Rescale(a, b, y) - Rescale(a, b, x) == a * (y - x);
  }

  lemma {:induction false} CountAffine(xs: seq<real>, a: real, b: real, v: real)
    requires a != 0.0
    ensures var ys, w := Affine(xs, a, b), Rescale(a, b, v);
            && Count(ys, Below(w)) == (if a > 0.0 then Count(xs, Below(v)) else |xs| - Count(xs, UpTo(v)))
            && Count(ys, UpTo(w)) == (if a > 0.0 then Count(xs, UpTo(v)) else |xs| - Count(xs, Below(v)))
  {
    hide Rescale;
    if xs != [] {
      var init, x := xs[..|xs|-1], xs[|xs|-1];
      CountAffine(init, a, b, v);
      assert Affine(xs, a, b)[..|xs|-1] == Affine(init, a, b);
      RescaleOrder(a, b, x, v);
      RescaleOrder(a, b, v, x);
    }
  }

  lemma OrderStatisticAffine(xs: seq<real>, a: real, b: real, k: nat)
    requires a != 0.0 && k < |xs|
    ensures OrderStatistic(Affine(xs, a, b), k) ==
            Rescale(a, b, OrderStatistic(xs, if a > 0.0 then k else |xs| - 1 - k))
  {
    hide Rescale, OrderStatistic;
    var k' := if a > 0.0 then k else |xs| - 1 - k;
    var v := OrderStatistic(xs, k');
    OrderStatisticExact(xs, k', v);
    CountAffine(xs, a, b, v);
    OrderStatisticExact(Affine(xs, a, b), k, Rescale(a, b, v));
  }

  lemma RescaleMidpoint(a: real, b: real, x: real, y: real)
    ensures (Rescale(a, b, x) + Rescale(a, b, y)) / 2.0 == Rescale(a, b, (x + y) / 2.0)
  {
  }

  lemma {:induction false} MedianAffine(xs: seq<real>, a: real, b: real)
    requires a != 0.0 && xs != []
    ensures Median(Affine(xs, a, b)) == Rescale(a, b, Median(xs))
  {
    hide Rescale, OrderStatistic;
    var n := |xs|;
    OrderStatisticAffine(xs, a, b, n / 2);
    if n % 2 == 0 {
      OrderStatisticAffine(xs, a, b, n / 2 - 1);
      RescaleMidpoint(a, b, OrderStatistic(xs, n / 2 - 1), OrderStatistic(xs, n / 2));
    }
  }

  lemma AbsRescale(a: real, b: real, x: real, m: real)
    ensures Abs(Rescale(a, b, x) - Rescale(a, b, m)) == Rescale(Abs(a), 0.0, Abs(x - m))
  {
    assert Rescale(a, b, x) - Rescale(a, b, m) == a * (x - m);
  }

  /** A change of units scales the deviation by the size of its slope. */
  lemma {:induction false} MadAffine(xs: seq<real>, a: real, b: real)
    requires a != 0.0 && xs != []
    ensures Mad(Affine(xs, a, b), None) == Abs(a) * Mad(xs, None)
  {
    hide Rescale, Median;
    MedianAffine(xs, a, b);
    var m := Median(xs);
    var ds, es := AbsDeviations(xs, m), AbsDeviations(Affine(xs, a, b), Rescale(a, b, m));
    forall i | 0 <= i < |xs| ensures es[i] == Rescale(Abs(a), 0.0, ds[i]) {
      AbsRescale(a, b, xs[i], m);
    }
    assert es == Affine(ds, Abs(a), 0.0);
    MedianAffine(ds, Abs(a), 0.0);
    RescaleNoOffset(Abs(a), Median(ds));
  }

  lemma RescaleNoOffset(a: real, x: real)
    ensures Rescale(a, 0.0, x) == a * x
  {
  }

  lemma OrderStatisticNonNegative(xs: seq<real>, k: nat)
    requires k < |xs| && forall i :: 0 <= i < |xs| ==> xs[i] >= 0.0
    ensures OrderStatistic(xs, k) >= 0.0
  {
    hide OrderStatistic, Count;
    var v := OrderStatistic(xs, k);
    OrderStatisticExact(xs, k, v);
    if v < 0.0 {
      CountNone(xs, UpTo(v));
    }
  }

  lemma MadNonNegative(xs: seq<real>, m: real)
    ensures Mad(xs, Some(m)) >= 0.0
  {
    hide OrderStatistic;
    var ds := AbsDeviations(xs, m);
    if xs != [] {
      OrderStatisticNonNegative(ds, |ds| / 2);
      if |ds| % 2 == 0 {
        OrderStatisticNonNegative(ds, |ds| / 2 - 1);
      }
    }
  }

  // ----- breakdown -----

  function Within(lo: real, hi: real): real -> bool {
    x => lo <= x <= hi
  }

  function Changed(xs: seq<real>, ys: seq<real>): (n: nat)
    requires |xs| == |ys|
    ensures n <= |xs|
  {
    if xs == [] then 0
    else Changed(xs[..|xs|-1], ys[..|ys|-1]) + if xs[|xs|-1] == ys[|ys|-1] then 0 else 1
  }

  lemma {:induction false} UnchangedAreWithin(xs: seq<real>, ys: seq<real>, zs: seq<real>, lo: real, hi: real)
    requires |xs| == |ys| == |zs|
    requires forall i :: 0 <= i < |xs| && xs[i] == ys[i] ==> lo <= zs[i] <= hi
    ensures Count(zs, Within(lo, hi)) >= |xs| - Changed(xs, ys)
  {
    if xs != [] {
      UnchangedAreWithin(xs[..|xs|-1], ys[..|ys|-1], zs[..|zs|-1], lo, hi);
    }
  }

  lemma OrderStatisticWithin(zs: seq<real>, lo: real, hi: real, k: nat)
    requires k < |zs|
    requires Count(zs, Within(lo, hi)) > k && Count(zs, Within(lo, hi)) > |zs| - 1 - k
    ensures lo <= OrderStatistic(zs, k) <= hi
  {
    hide OrderStatistic;
    var v := OrderStatistic(zs, k);
    OrderStatisticExact(zs, k, v);
    if hi < v {
      CountMonotone(zs, Within(lo, hi), Below(v));
    } else if v < lo {
      CountDisjoint(zs, Within(lo, hi), UpTo(v));
    }
  }

  /** A majority inside an interval keeps the median inside it. */
  lemma {:induction false} MajorityHoldsMedian(zs: seq<real>, lo: real, hi: real)
    requires 2 * Count(zs, Within(lo, hi)) > |zs|
    ensures lo <= Median(zs) <= hi
  {
    hide OrderStatistic;
    OrderStatisticWithin(zs, lo, hi, |zs| / 2);
    if |zs| % 2 == 0 {
      OrderStatisticWithin(zs, lo, hi, |zs| / 2 - 1);
    }
  }

  /** Breakdown resistance: replacing fewer than half of the values by anything at all leaves the
      median among the untouched values and the deviation within their range. */
  lemma {:induction false} BreakdownResistance(xs: seq<real>, ys: seq<real>, lo: real, hi: real)
    requires |xs| == |ys| && 2 * Changed(xs, ys) < |xs|
    requires forall i :: 0 <= i < |xs| && xs[i] == ys[i] ==> lo <= xs[i] <= hi
    ensures lo <= Median(ys) <= hi
    ensures 0.0 <= Mad(ys, None) <= hi - lo
  {
    hide Median, Count, Changed, Abs;
    var m := Median(ys);
    UnchangedAreWithin(xs, ys, ys, lo, hi);
    MajorityHoldsMedian(ys, lo, hi);
    var ds := AbsDeviations(ys, m);
    forall i | 0 <= i < |xs| && xs[i] == ys[i] ensures 0.0 <= ds[i] <= hi - lo {
      DistanceWithin(ys[i], m, lo, hi);
    }
    UnchangedAreWithin(xs, ys, ds, 0.0, hi - lo);
    MajorityHoldsMedian(ds, 0.0, hi - lo);
  }

  lemma DistanceWithin(x: real, y: real, lo: real, hi: real)
    requires lo <= x <= hi && lo <= y <= hi
    ensures 0.0 <= Abs(x - y) <= hi - lo
  {
  }

  /** The bound is sharp for every window: half of the values (rounded up) already suffice to
      push the median beyond any limit. */
  lemma {:induction false} BreakdownIsSharp(xs: seq<real>, lo: real, limit: real) returns (ys: seq<real>)
    requires xs != [] && forall i :: 0 <= i < |xs| ==> lo <= xs[i]
    ensures |ys| == |xs| && 2 * Changed(xs, ys) <= |xs| + 1
    ensures Median(ys) > limit
  {
    hide OrderStatistic, Count;
    var n, h := |xs|, |xs| / 2;
    var big := Abs(2.0 * limit - lo) + Abs(limit) + Abs(lo) + 1.0;
    ys := xs[..h] + seq(n - h, _ => big);
    ChangedTail(xs, ys, h);
    AboveOrderStatistic(ys, h, big);
    if n % 2 == 0 {
      var v := OrderStatistic(ys, h - 1);
      OrderStatisticExact(ys, h - 1, v);
      if v < lo {
        assert big >= lo;
        CountNone(ys, UpTo(v));
      }
    }
  }

  /** If everything from index h on is big, so is the order statistic h. */
  lemma AboveOrderStatistic(ys: seq<real>, h: nat, big: real)
    requires h < |ys| && forall i :: h <= i < |ys| ==> ys[i] >= big
    ensures OrderStatistic(ys, h) >= big
  {
    hide OrderStatistic;
    var v := OrderStatistic(ys, h);
    OrderStatisticExact(ys, h, v);
    if v < big {
      CountAtMostPrefix(ys, h, UpTo(v));
    }
  }

  lemma {:induction false} ChangedTail(xs: seq<real>, ys: seq<real>, h: nat)
    requires |xs| == |ys| && h <= |xs| && xs[..h] == ys[..h]
    ensures Changed(xs, ys) <= |xs| - h
  {
    if |xs| > h {
      assert xs[..|xs|-1][..h] == xs[..h] && ys[..|ys|-1][..h] == ys[..h];
      ChangedTail(xs[..|xs|-1], ys[..|ys|-1], h);
    } else if xs != [] {
      assert xs == xs[..h] && ys == ys[..h];
      ChangedSame(xs, ys);
    }
  }

  lemma {:induction false} ChangedSame(xs: seq<real>, ys: seq<real>)
    requires xs == ys
    ensures Changed(xs, ys) == 0
  {
    if xs != [] {
      ChangedSame(xs[..|xs|-1], ys[..|ys|-1]);
    }
  }

  // ----- how many values lie beyond the deviation -----

  function Above(v: real): real -> bool {
    x => x > v
  }

  lemma {:induction false} CountSplit(xs: seq<real>, v: real)
    ensures Count(xs, UpTo(v)) + Count(xs, Above(v)) == |xs|
  {
    if xs != [] {
      CountSplit(xs[..|xs|-1], v);
    }
  }

  /** At most half of the values exceed the median. */
  lemma {:induction false} HalfAboveMedian(xs: seq<real>)
    ensures 2 * Count(xs, Above(Median(xs))) <= |xs|
  {
    hide OrderStatistic, Count;
    if xs == [] {
      CountNone(xs, Above(Median(xs)));
    } else {
      var n, m := |xs|, Median(xs);
      var k := if n % 2 == 1 then n / 2 else n / 2 - 1;
      var v := OrderStatistic(xs, k);
      OrderStatisticExact(xs, k, v);
      if n % 2 == 0 {
        OrderStatisticsAscend(xs, k, k + 1);
      }
      assert v <= m;
      CountSplit(xs, m);
      CountMonotone(xs, UpTo(v), UpTo(m));
    }
  }

  lemma OrderStatisticsAscend(xs: seq<real>, j: nat, k: nat)
    requires j <= k < |xs|
    ensures OrderStatistic(xs, j) <= OrderStatistic(xs, k)
  {
    hide OrderStatistic, Count;
    var v, w := OrderStatistic(xs, j), OrderStatistic(xs, k);
    OrderStatisticExact(xs, j, v);
    OrderStatisticExact(xs, k, w);
    if w < v {
      CountMonotone(xs, UpTo(w), Below(v));
    }
  }

  function DeviatesBy(limit: real, m: real): real -> bool {
    x => Abs(x - m) > limit
  }

  lemma {:induction false} CountDeviations(xs: seq<real>, m: real, limit: real)
    ensures Count(xs, DeviatesBy(limit, m)) == Count(AbsDeviations(xs, m), Above(limit))
  {
    if xs != [] {
      CountDeviations(xs[..|xs|-1], m, limit);
      assert AbsDeviations(xs, m)[..|xs|-1] == AbsDeviations(xs[..|xs|-1], m);
    }
  }

  /** The deviation's own guarantee: at most half of the window lies farther from the median. */
  lemma {:induction false} HalfBeyondMad(xs: seq<real>)
    ensures 2 * Count(xs, DeviatesBy(Mad(xs, None), Median(xs))) <= |xs|
  {
    hide Median, Count, Abs;
    if xs == [] {
      CountNone(xs, DeviatesBy(Mad(xs, None), Median(xs)));
    } else {
      CountDeviations(xs, Median(xs), Mad(xs, None));
      HalfAboveMedian(AbsDeviations(xs, Median(xs)));
    }
  }

  function Equals(v: real): real -> bool {
    x => x == v
  }

  /** Among non-negative values the median is zero exactly when more than half are. */
  lemma {:induction false} MedianZeroExact(ds: seq<real>)
    requires ds != [] && forall i :: 0 <= i < |ds| ==> ds[i] >= 0.0
    ensures Median(ds) == 0.0 <==> 2 * Count(ds, UpTo(0.0)) > |ds|
  {
    hide OrderStatistic, Count;
    var n := |ds|;
    OrderStatisticNonNegative(ds, n / 2);
    var v := OrderStatistic(ds, n / 2);
    OrderStatisticExact(ds, n / 2, v);
    OrderStatisticExact(ds, n / 2, 0.0);
    CountNone(ds, Below(0.0));
    if n % 2 == 0 {
      OrderStatisticNonNegative(ds, n / 2 - 1);
      OrderStatisticExact(ds, n / 2 - 1, 0.0);
    }
  }

  lemma {:induction false} CountZeroDeviations(xs: seq<real>, m: real)
    ensures Count(AbsDeviations(xs, m), UpTo(0.0)) == Count(xs, Equals(m))
  {
    if xs != [] {
      CountZeroDeviations(xs[..|xs|-1], m);
      assert AbsDeviations(xs, m)[..|xs|-1] == AbsDeviations(xs[..|xs|-1], m);
    }
  }

  /** The deviation vanishes exactly when more than half of the window equals the median. */
  lemma {:induction false} MadZeroExact(xs: seq<real>)
    ensures Mad(xs, None) == 0.0 <==> xs == [] || 2 * Count(xs, Equals(Median(xs))) > |xs|
  {
    hide Median, Count;
    if xs != [] {
      MedianZeroExact(AbsDeviations(xs, Median(xs)));
      CountZeroDeviations(xs, Median(xs));
    }
  }
}
