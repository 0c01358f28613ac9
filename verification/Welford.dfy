/** Incremental mean and squared deviations (phase0/baseline/welford_accumulator.py). */
module Welford {
  import opened Statistics

  datatype Moments = Moments(count: int, mean: real, m2: real)

  datatype Removal = Removed(moments: Moments) | CannotRemoveFromEmpty

  /** Folds one value in. */
  function Update(m: Moments, value: real): Moments
    requires m.count >= 0
  {
    var count := m.count + 1;
    var delta := value - m.mean;
    var mean := m.mean + delta / count as real;
    var delta2 := value - mean;
    Moments(count, mean, m.m2 + delta * delta2)
  }

  /** Takes one value out; the clamp and the two special counts are the source's. */
  function Remove(m: Moments, oldValue: real): Removal {
    if m.count <= 0 then CannotRemoveFromEmpty
    else if m.count == 1 then Removed(Moments(0, 0.0, 0.0))
    else
      var newMoments := Inverse(m, oldValue);
      Removed(newMoments.(m2 := if newMoments.m2 > 0.0 then newMoments.m2 else 0.0))
  }

  /** The algebraic inverse before the clamp. */
  function Inverse(m: Moments, oldValue: real): Moments
    requires m.count >= 2
  {
    var newCount := m.count - 1;
    var delta := oldValue - m.mean;
    var newMean := m.mean - delta / newCount as real;
    var delta2 := oldValue - newMean;
    Moments(newCount, newMean, m.m2 - delta * delta2)
  }

  /** The moments computed from scratch. */
  function MomentsOf(xs: seq<real>): Moments {
    Moments(|xs|, Mean(xs), M2(xs))
  }

  function Fold(xs: seq<real>): (m: Moments)
    ensures m.count == |xs|
  {
    if xs == [] then Moments(0, 0.0, 0.0) else Update(Fold(xs[..|xs|-1]), xs[|xs|-1])
  }

  lemma MeanStep(n: real, mean: real, s: real, v: real)
    requires n >= 0.0 && n * mean == s
    ensures mean + (v - mean) / (n + 1.0) == (s + v) / (n + 1.0)
  {
    var q := (v - mean) / (n + 1.0);
    assert (n + 1.0) * q == v - mean;
    assert (n + 1.0) * (mean + q) == n * mean + mean + (n + 1.0) * q;
  }

  lemma M2Step(n: real, mean: real, mean': real, s: real, q: real, v: real)
    requires n * mean == s && (n + 1.0) * mean' == s + v
    ensures (q - mean * s) + (v - mean) * (v - mean') == (q + v * v) - mean' * (s + v)
  {
    assert (v - mean) * (v - mean') == v * v - v * mean' - mean * v + mean * mean';
    assert mean * ((n + 1.0) * mean') == mean' * (n * mean) + mean' * mean;
  }

  /** Update in the two-sums form: a step on numbers only. */
  lemma UpdateOnSums(m: Moments, s: real, q: real, v: real)
    requires m.count >= 0 && m.count as real * m.mean == s && m.m2 == q - m.mean * s
    ensures var u := Update(m, v);
            && u.count == m.count + 1
            && u.mean == (s + v) / u.count as real
            && u.m2 == (q + Square(v)) - u.mean * (s + v)
  {
    var n := m.count as real;
    MeanStep(n, m.mean, s, v);
    assert (n + 1.0) * ((s + v) / (n + 1.0)) == s + v;
    M2Step(n, m.mean, (s + v) / (n + 1.0), s, q, v);
  }

  /** One update step is exact. */
  lemma {:induction false} UpdateExact(xs: seq<real>, v: real)
    ensures Update(MomentsOf(xs), v) == MomentsOf(xs + [v])
  {
    hide Update, Square, M2, SumSq;
    MeanTimesCount(xs);
    M2FromSums(xs);
    UpdateOnSums(MomentsOf(xs), Sum(xs), SumSq(xs), v);
    SumSnoc(xs, v);
    SumSqSnoc(xs, v);
    M2FromSums(xs + [v]);
  }

  /** The fold over any list is exactly its count, mean and squared deviations. */
  lemma {:induction false} FoldExact(xs: seq<real>)
    ensures Fold(xs) == MomentsOf(xs)
  {
    if xs != [] {
      FoldExact(xs[..|xs|-1]);
      UpdateExact(xs[..|xs|-1], xs[|xs|-1]);
      assert xs[..|xs|-1] + [xs[|xs|-1]] == xs;
    }
  }

  lemma InverseUndoesUpdate(m: Moments, v: real)
    requires m.count >= 1
    ensures Inverse(Update(m, v), v) == m
  {
    var n := m.count as real;
    var u := Update(m, v);
    var d := v - m.mean;
    var q := d / (n + 1.0);
    assert (n + 1.0) * q == d;
    assert u.mean == m.mean + q;
    assert v - u.mean == d - q == n * q;
    assert (n * q) / n == q;
    assert u.mean - (v - u.mean) / n == m.mean;
  }

  /** Removing a value folded in anywhere gives the fold without it, and the
      clamp on the squared deviations never acts. */
  lemma {:induction false} RemoveExact(xs: seq<real>, o: real, ys: seq<real>)
    ensures Remove(MomentsOf(xs + [o] + ys), o) == Removed(MomentsOf(xs + ys))
    ensures |xs + ys| >= 1 ==>
              Inverse(MomentsOf(xs + [o] + ys), o) == MomentsOf(xs + ys)
  {
    var rest, all := xs + ys, xs + [o] + ys;
    if rest == [] {
      assert all == [o];
    } else {
      MiddleToEnd(xs, o, ys);
      UpdateExact(rest, o);
      InverseUndoesUpdate(MomentsOf(rest), o);
      SumSqDevNonNegative(rest, Mean(rest));
    }
  }

  /** The statistics do not depend on where a value stands. */
  lemma MiddleToEnd(xs: seq<real>, o: real, ys: seq<real>)
    ensures MomentsOf(xs + [o] + ys) == MomentsOf(xs + ys + [o])
  {
    SumConcat(xs + [o], ys);
    SumConcat(xs, ys);
    SumSnoc(xs, o);
    SumSnoc(xs + ys, o);
    SumSqDevConcat(xs + [o], ys, 0.0);
    SumSqDevConcat(xs, ys, 0.0);
    SumSqSnoc(xs, o);
    SumSqSnoc(xs + ys, o);
    SameSumsSameStatistics(xs + [o] + ys, xs + ys + [o]);
  }

  /** The documented contract of the removal step, on every accumulator reached by folding:
      it fails exactly on the empty accumulator, and adding then removing is the identity. */
  lemma {:induction false} RemoveInvertsUpdate(xs: seq<real>, v: real)
    ensures Remove(Update(Fold(xs), v), v) == Removed(Fold(xs))
    ensures Remove(Fold(xs), v).CannotRemoveFromEmpty? <==> xs == []
  {
    FoldExact(xs);
    UpdateExact(xs, v);
    RemoveExact(xs, v, []);
    assert xs + [v] + [] == xs + [v] && xs + [] == xs;
  }

  /** Whatever the accumulator, reachable or not, removal never leaves negative squared deviations, and changes
      the algebraic result only when that is negative. */
  lemma RemoveClamps(m: Moments, v: real)
    requires m.count >= 2
    ensures Remove(m, v).Removed? && Remove(m, v).moments.m2 >= 0.0
    ensures Inverse(m, v).m2 >= 0.0 ==> Remove(m, v).moments == Inverse(m, v)
    ensures Inverse(m, v).m2 < 0.0 ==> Remove(m, v).moments == Inverse(m, v).(m2 := 0.0)
  {
    hide Inverse;
  }
}
