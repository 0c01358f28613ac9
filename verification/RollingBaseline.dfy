/** The rolling state of one bucket: a sliding window plus the moments kept
    incrementally beside it (phase0/types.py, phase0/baseline/rolling_baseline_store.py). */
module RollingBaseline {
  import opened Statistics
  import opened Welford

  datatype BucketState = BucketState(count: nat, mean: real, m2: real, window: seq<real>)

  const EMPTY_BUCKET := BucketState(0, 0.0, 0.0, [])

  /** Folds a value in and evicts the oldest one when the window would exceed its size. */
  function ApplyUpdate(windowSize: int, s: BucketState, value: real): BucketState {
    var m := Update(Moments(s.count, s.mean, s.m2), value);
    var window := s.window + [value];
    if |window| > windowSize then
      var r := Remove(m, window[0]).moments;
      BucketState(r.count, r.mean, r.m2, window[1..])
    else
      BucketState(m.count, m.mean, m.m2, window)
  }

  /** One committed write; every writer brings its own store's window size. */
  datatype Write = Write(windowSize: int, value: real)

  function Replay(ws: seq<Write>): BucketState {
    if ws == [] then EMPTY_BUCKET
    else
      var last := ws[|ws|-1];
      ApplyUpdate(last.windowSize, Replay(ws[..|ws|-1]), last.value)
  }

  // ----- the reference: statistics recomputed from the surviving values -----

  /** The state computed from scratch over a list of surviving values. */
  function StateOf(window: seq<real>): BucketState {
    BucketState(|window|, Mean(window), M2(window), window)
  }

  function Values(ws: seq<Write>): (vs: seq<real>)
    ensures |vs| == |ws|
  {
    seq(|ws|, i requires 0 <= i < |ws| => ws[i].value)
  }

  /** A window size below zero behaves like zero: the new value is evicted at once. */
  function Capacity(windowSize: int): nat {
    if windowSize < 0 then 0 else windowSize
  }

  function LastN(vs: seq<real>, n: nat): seq<real> {
    if |vs| <= n then vs else vs[|vs|-n..]
  }

  /** By position: the most recent n values, in order, or all when there are fewer. */
  lemma {:induction false} LastNExact(vs: seq<real>, n: nat)
    ensures var r := LastN(vs, n);
            |r| == (if n < |vs| then n else |vs|) && forall j :: 0 <= j < |r| ==> r[j] == vs[|vs| - |r| + j]
  {
  }

  function Slide(windowSize: int, window: seq<real>, value: real): seq<real> {
    if |window| + 1 > windowSize then (window + [value])[1..] else window + [value]
  }

  function WindowOf(ws: seq<Write>): seq<real> {
    if ws == [] then []
    else
      var last := ws[|ws|-1];
      Slide(last.windowSize, WindowOf(ws[..|ws|-1]), last.value)
  }

  lemma {:induction false} ApplyUpdateExact(windowSize: int, window: seq<real>, v: real)
    ensures ApplyUpdate(windowSize, StateOf(window), v) == StateOf(Slide(windowSize, window, v))
  {
    hide Mean, M2, Update, Remove, Inverse;
    UpdateExact(window, v);
    var all := window + [v];
    if |all| > windowSize {
      RemoveExact([], all[0], all[1..]);
      assert [] + [all[0]] + all[1..] == all && [] + all[1..] == all[1..];
    }
  }

  /** Whatever sizes the writers use, count, mean and squared deviations are exactly those of
      the stored window, and the window is a run of the most recent committed values. */
  lemma {:induction false} ReplayExact(ws: seq<Write>)
    ensures Replay(ws) == StateOf(WindowOf(ws))
    ensures |WindowOf(ws)| <= |ws| && WindowOf(ws) == LastN(Values(ws), |WindowOf(ws)|)
  {
    hide Mean, M2, ApplyUpdate;
    if ws == [] {
      assert Values(ws) == [];
      assert StateOf([]) == EMPTY_BUCKET by { EmptyStatistics(); }
    } else {
      var init, last := ws[..|ws|-1], ws[|ws|-1];
      ReplayExact(init);
      ApplyUpdateExact(last.windowSize, WindowOf(init), last.value);
      assert Values(ws) == Values(init) + [last.value];
    }
  }

  lemma EmptyStatistics()
    ensures Mean([]) == 0.0 && M2([]) == 0.0
  {
    assert SquaredDeviations([], 0.0) == [];
  }

  /** Sliding-window exactness: with one window size the state is the from-scratch
      statistics of the last min(n, size) committed values. */
  lemma {:induction false} SlidingWindowExact(ws: seq<Write>, windowSize: int)
    requires forall i :: 0 <= i < |ws| ==> ws[i].windowSize == windowSize
    ensures Replay(ws) == StateOf(LastN(Values(ws), Capacity(windowSize)))
  {
    hide Mean, M2, ApplyUpdate;
    ReplayExact(ws);
    WindowLength(ws, windowSize);
  }

  lemma {:induction false} WindowLength(ws: seq<Write>, windowSize: int)
    requires forall i :: 0 <= i < |ws| ==> ws[i].windowSize == windowSize
    ensures |WindowOf(ws)| == if |ws| <= Capacity(windowSize) then |ws| else Capacity(windowSize)
  {
    if ws != [] {
      WindowLength(ws[..|ws|-1], windowSize);
    }
  }

  /** One eviction per write cannot shrink a window: a writer leaves the bucket within its own
      size exactly when it found it within that size. */
  lemma {:induction false} SizeBoundKeptIff(windowSize: int, ws: seq<Write>, v: real)
    ensures |Replay(ws + [Write(windowSize, v)]).window| <= Capacity(windowSize)
            <==> |Replay(ws).window| <= Capacity(windowSize)
  {
    hide Mean, M2, ApplyUpdate;
    ReplayExact(ws);
    ReplayExact(ws + [Write(windowSize, v)]);
    assert (ws + [Write(windowSize, v)])[..|ws|] == ws;
  }

  /** So stores of different sizes sharing a bucket can overflow the smaller one. */
  lemma {:induction false} MixedSizesOverflow()
    ensures |Replay([Write(2, 1.0), Write(2, 2.0), Write(1, 3.0)]).window| == 2
  {
    hide Mean, M2, ApplyUpdate;
    var ws := [Write(2, 1.0), Write(2, 2.0), Write(1, 3.0)];
    ReplayExact(ws);
    WindowLength(ws[..2], 2);
    assert ws[..|ws|-1] == ws[..2];
  }
}
