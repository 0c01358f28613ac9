/** Reference profiles: full builds, incremental updates and the drift alarm
    (phase2/encoding/reference_encoder_service.py). */
module Profiles {
  import opened Statistics
  import opened Vectors
  import opened Lists
  import opened RecordWindows

  const EMBED_DIM: nat := 128

  type Embedding = v: Vector | |v| == EMBED_DIM witness seq(EMBED_DIM, _ => 0.0)

  /** `norm` stands for the Euclidean norm: the non-negative root of the squared norm. */
  ghost predicate IsNorm(norm: Vector -> real) {
    forall v :: norm(v) >= 0.0 && Square(norm(v)) == SquaredNorm(v)
  }

  datatype Config = Config(
    historyLen: nat, seqLen: nat, encoderSeqLen: int, alpha: real, driftAlarmStd: real,
    globalMean: Embedding, norm: Vector -> real, encode: seq<EncodedRow> -> Embedding, fields: RawRecord -> EncodedRow)

  datatype EntityProfile = EntityProfile(
    centroid: Embedding, history: seq<Embedding>, variance: real, nRecords: nat, coldStart: bool)

  function ScaleDown(v: Embedding, k: real): Embedding
    requires k != 0.0
  {
    seq(EMBED_DIM, i requires 0 <= i < EMBED_DIM => v[i] / k)
  }

  function Normalised(norm: Vector -> real, v: Embedding): Embedding {
    if norm(v) > 0.0 then ScaleDown(v, norm(v)) else v
  }

  /** The values of one coordinate across a list of vectors. */
  function Column(vs: seq<Embedding>, i: nat): (c: seq<real>)
    requires i < EMBED_DIM
    ensures |c| == |vs|
  {
    seq(|vs|, j requires 0 <= j < |vs| => vs[j][i])
  }

  function MeanVector(vs: seq<Embedding>): Embedding {
    seq(EMBED_DIM, i requires 0 <= i < EMBED_DIM => Mean(Column(vs, i)))
  }

  /** Trace of the sample covariance matrix. */
  function Spread(vs: seq<Embedding>): real {
    if |vs| <= 1 then 0.0 else TraceUpTo(vs, EMBED_DIM) / (|vs| - 1) as real
  }

  function TraceUpTo(vs: seq<Embedding>, d: nat): real
    requires d <= EMBED_DIM
  {
    if d == 0 then 0.0 else TraceUpTo(vs, d - 1) + M2(Column(vs, d - 1))
  }

  /** Squared distances of the vectors from a point, added up. */
  function DistancesFrom(vs: seq<Embedding>, m: Embedding): real {
    if vs == [] then 0.0 else DistancesFrom(vs[..|vs|-1], m) + SquaredDistance(vs[|vs|-1], m)
  }

  /** The coordinates' squared deviations from a point, added up over the first d coordinates. */
  function TraceFrom(vs: seq<Embedding>, m: Embedding, d: nat): real
    requires d <= EMBED_DIM
  {
    if d == 0 then 0.0 else TraceFrom(vs, m, d - 1) + SumSqDev(Column(vs, d - 1), m[d - 1])
  }

  lemma {:induction false} TraceFromNone(m: Embedding, d: nat)
    requires d <= EMBED_DIM
    ensures TraceFrom([], m, d) == 0.0
  {
    hide Square;
    if d > 0 {
      TraceFromNone(m, d - 1);
      assert SquaredDeviations(Column([], d - 1), m[d - 1]) == [];
    }
  }

  lemma {:induction false} TraceFromSnoc(vs: seq<Embedding>, v: Embedding, m: Embedding, d: nat)
    requires d <= EMBED_DIM
    ensures TraceFrom(vs + [v], m, d) == TraceFrom(vs, m, d) + SquaredNorm(Difference(v, m)[..d])
  {
    hide Square, SumSqDev;
    var diff := Difference(v, m);
    if d > 0 {
      TraceFromSnoc(vs, v, m, d - 1);
      assert Column(vs + [v], d - 1) == Column(vs, d - 1) + [v[d - 1]];
      SumSqDevSnoc(Column(vs, d - 1), v[d - 1], m[d - 1]);
      assert diff[..d][..d - 1] == diff[..d - 1];
    }
  }

  lemma {:induction false} TraceIsDistances(vs: seq<Embedding>, m: Embedding)
    ensures TraceFrom(vs, m, EMBED_DIM) == DistancesFrom(vs, m)
  {
    hide TraceFrom, SquaredNorm;
    if vs == [] {
      TraceFromNone(m, EMBED_DIM);
    } else {
      var init, v := vs[..|vs|-1], vs[|vs|-1];
      TraceIsDistances(init, m);
      TraceFromSnoc(init, v, m, EMBED_DIM);
      assert vs == init + [v];
      assert Difference(v, m)[..EMBED_DIM] == Difference(v, m);
    }
  }

  lemma {:induction false} TraceUpToIsTraceFrom(vs: seq<Embedding>, d: nat)
    requires d <= EMBED_DIM
    ensures TraceUpTo(vs, d) == TraceFrom(vs, MeanVector(vs), d)
  {
    hide Mean, SumSqDev;
    if d > 0 {
      TraceUpToIsTraceFrom(vs, d - 1);
    }
  }

  /** The spread of more than one embedding is the sum of their squared distances from their mean,
      over one less than their number; fewer have none. */
  lemma {:induction false} SpreadIsDistanceFromMean(vs: seq<Embedding>)
    ensures |vs| <= 1 ==> Spread(vs) == 0.0
    ensures |vs| > 1 ==> (|vs| - 1) as real * Spread(vs) == DistancesFrom(vs, MeanVector(vs))
  {
    hide TraceUpTo, TraceFrom, MeanVector, DistancesFrom;
    TraceUpToIsTraceFrom(vs, EMBED_DIM);
    TraceIsDistances(vs, MeanVector(vs));
  }

  // ----- windows to embeddings -----

  /** One embedding per window, from the rows the encoder retains of it. */
  function EmbedWindows(cfg: Config, ws: seq<seq<RawRecord>>): (es: seq<Embedding>)
    ensures |es| == |ws|
    ensures forall i :: 0 <= i < |ws| ==> es[i] == EmbedWindow(cfg, ws[i])
  {
    seq(|ws|, i requires 0 <= i < |ws| => EmbedWindow(cfg, ws[i]))
  }

  function EmbedWindow(cfg: Config, w: seq<RawRecord>): Embedding {
    cfg.encode(EncodeAll(cfg.fields, Retained(w, cfg.encoderSeqLen)))
  }

  function EmbedRecords(cfg: Config, records: seq<RawRecord>): seq<Embedding>
    requires cfg.seqLen >= 1
  {
    EmbedWindows(cfg, BuildWindows(records, cfg.seqLen))
  }

  /** The embeddings by position: with an encoder length that covers the windows, embedding i is the network's
      output for the records from i * seqLen on, in chronological order. */
  lemma {:induction false} EmbeddingsExact(cfg: Config, records: seq<RawRecord>)
    requires 1 <= cfg.seqLen <= cfg.encoderSeqLen
    ensures var o, es := Ordered(records), EmbedRecords(cfg, records);
            && |o| == |records|
            && |o| <= ChunkStart(|es|, cfg.seqLen) < |o| + cfg.seqLen
            && forall i :: 0 <= i < |es| ==>
                 var start := ChunkStart(i, cfg.seqLen);
                 && start < |o|
                 && es[i] == cfg.encode(EncodeAll(cfg.fields,
                               o[start..if start + cfg.seqLen < |o| then start + cfg.seqLen else |o|]))
  {
    hide Ordered, BuildWindows, Retained, EncodeAll;
    var ws := BuildWindows(records, cfg.seqLen);
    WindowsExact(records, cfg.seqLen);
    forall i | 0 <= i < |ws| ensures Retained(ws[i], cfg.encoderSeqLen) == ws[i] {
      WindowsStaySorted(records, cfg.seqLen, ws[i]);
      RetainedWholeIff(ws[i], cfg.encoderSeqLen);
    }
  }

  /** Cuts row i of a padded batch to its length. */
  function CutRow(batch: array2<EncodedRow>, i: nat, length: nat): seq<EncodedRow>
    requires i < batch.Length0 && length <= batch.Length1
    reads batch
  {
    seq(length, j requires 0 <= j < length reads batch => batch[i, j])
  }

  /** All windows are encoded, padded into one batch and embedded row by row; the encoder masks
      everything beyond a row's length, so it sees the row cut to its length. */
  method EncodeWindows(cfg: Config, ws: seq<seq<RawRecord>>) returns (es: seq<Embedding>)
    ensures es == EmbedWindows(cfg, ws)
  {
    es := [];
    if ws == [] {
      return;
    }
    var encodings: seq<seq<EncodedRow>> := [];
    for i := 0 to |ws|
      invariant |encodings| == i
      invariant forall k :: 0 <= k < i ==> encodings[k] == EncodeAll(cfg.fields, Retained(ws[k], cfg.encoderSeqLen))
    {
      var rows := EncodeEntityRecords(cfg.fields, ws[i], cfg.encoderSeqLen);
      encodings := encodings + [rows];
    }
    var batch, lengths := Collate(encodings);
    for i := 0 to |ws|
      invariant es == EmbedWindows(cfg, ws)[..i]
    {
      var row := CutRow(batch, i, lengths[i]);
      assert row == encodings[i];
      es := es + [cfg.encode(row)];
    }
  }

  // ----- the moving centroid -----

  /** The blends of one call, oldest window first, before normalising. */
  function Ema(alpha: real, c: Embedding, es: seq<Embedding>): Embedding {
    if es == [] then c else Blend(alpha, es[|es|-1], Ema(alpha, c, es[..|es|-1]))
  }

  function Power(x: real, n: nat): real {
    if n == 0 then 1.0 else Power(x, n - 1) * x
  }

  /** The weight, after m windows, of the prior centroid (j = 0) or of window j. */
  function EmaWeight(alpha: real, m: nat, j: nat): real
    requires j <= m
  {
    if j == 0 then Power(1.0 - alpha, m) else alpha * Power(1.0 - alpha, m - j)
  }

  function EmaWeights(alpha: real, m: nat): (ws: seq<real>)
    ensures |ws| == m + 1
    ensures forall j :: 0 <= j <= m ==> ws[j] == EmaWeight(alpha, m, j)
  {
    seq(m + 1, j requires 0 <= j < m + 1 => EmaWeight(alpha, m, j))
  }

  lemma EmaWeightsStep(alpha: real, m: nat, j: nat)
    requires j <= m
    ensures EmaWeights(alpha, m + 1)[j] == EmaWeights(alpha, m)[j] * (1.0 - alpha)
    ensures EmaWeights(alpha, m + 1)[m + 1] == alpha
  {
    assert Power(1.0 - alpha, 0) == 1.0;
    if j > 0 {
      var p := Power(1.0 - alpha, m - j);
      assert alpha * (p * (1.0 - alpha)) == (alpha * p) * (1.0 - alpha);
    }
  }

  lemma {:induction false} DotScaled(ws: seq<real>, us: seq<real>, xs: seq<real>, k: real)
    requires |us| == |ws| == |xs| && forall j :: 0 <= j < |ws| ==> us[j] == ws[j] * k
    ensures Dot(us, xs) == Dot(ws, xs) * k
  {
    if ws != [] {
      var n := |ws| - 1;
      DotScaled(ws[..n], us[..n], xs[..n], k);
      ScaledTerm(Dot(ws[..n], xs[..n]), ws[n], xs[n], k);
    }
  }

  lemma ScaledTerm(d: real, w: real, x: real, k: real)
    ensures d * k + (w * k) * x == (d + w * x) * k
  {
  }

  /** Closed form: each coordinate of the centroid is the weighted sum of the prior centroid's and
      the windows' coordinates. */
  lemma {:induction false} EmaClosedForm(alpha: real, c: Embedding, es: seq<Embedding>, i: nat)
    requires i < EMBED_DIM
    ensures Ema(alpha, c, es)[i] == Dot(EmaWeights(alpha, |es|), Column([c] + es, i))
  {
    hide EmaWeights, EmaWeight, Dot, Blend;
    var ws, xs := EmaWeights(alpha, |es|), Column([c] + es, i);
    if es == [] {
      EmaOnlyPrior(alpha, xs);
    } else {
      var init, m := es[..|es|-1], |es| - 1;
      var ws', xs' := EmaWeights(alpha, m), Column([c] + init, i);
      EmaClosedForm(alpha, c, init, i);
      assert xs[..m + 1] == xs';
      assert xs[m + 1] == es[m][i];
      forall j | 0 <= j < m + 1 ensures ws[..m + 1][j] == ws'[j] * (1.0 - alpha) {
        EmaWeightsStep(alpha, m, j);
      }
      EmaWeightsStep(alpha, m, 0);
      DotScaled(ws', ws[..m + 1], xs', 1.0 - alpha);
      DotLast(ws, xs);
      BlendCoordinate(alpha, es[m], Ema(alpha, c, init), i);
      EmaNumbers(alpha, es[m][i], Ema(alpha, c, init)[i], Dot(ws', xs'), ws[m + 1], xs[m + 1],
                 Dot(ws, xs), Ema(alpha, c, es)[i]);
    }
  }

  lemma EmaNumbers(alpha: real, e: real, prior: real, dot': real, w: real, x: real, dot: real, r: real)
    requires prior == dot' && w == alpha && x == e
    requires dot == dot' * (1.0 - alpha) + w * x
    requires r == alpha * e + prior * (1.0 - alpha)
    ensures r == dot
  {
  }

  lemma EmaOnlyPrior(alpha: real, xs: seq<real>)
    requires |xs| == 1
    ensures Dot(EmaWeights(alpha, 0), xs) == xs[0]
  {
    var ws := EmaWeights(alpha, 0);
    assert ws[0] == EmaWeight(alpha, 0, 0) == 1.0;
    assert Dot(ws[..0], xs[..0]) == 0.0;
  }

  lemma {:induction false} DotLast(ws: seq<real>, xs: seq<real>)
    requires |ws| == |xs| && ws != []
    ensures Dot(ws, xs) == Dot(ws[..|ws|-1], xs[..|xs|-1]) + ws[|ws|-1] * xs[|xs|-1]
  {
  }

  lemma BlendCoordinate(alpha: real, e: Embedding, c: Embedding, i: nat)
    requires i < EMBED_DIM
    ensures Blend(alpha, e, c)[i] == alpha * e[i] + c[i] * (1.0 - alpha)
  {
  }

  lemma {:induction false} SumOfScaled(ws: seq<real>, us: seq<real>, k: real)
    requires |us| == |ws| && forall j :: 0 <= j < |ws| ==> us[j] == ws[j] * k
    ensures Sum(us) == Sum(ws) * k
  {
    if ws != [] {
      var n := |ws| - 1;
      SumOfScaled(ws[..n], us[..n], k);
      assert (Sum(ws[..n]) + ws[n]) * k == Sum(ws[..n]) * k + ws[n] * k;
    }
  }

  /** The weights are a convex combination: they add up to 1 ... */
  lemma {:induction false} EmaWeightsSumToOne(alpha: real, m: nat)
    ensures Sum(EmaWeights(alpha, m)) == 1.0
  {
    hide EmaWeights, EmaWeight, Sum, Power;
    if m == 0 {
      EmaWeightsOne(alpha);
    } else {
      var ws, ws' := EmaWeights(alpha, m), EmaWeights(alpha, m - 1);
      EmaWeightsSumToOne(alpha, m - 1);
      forall j | 0 <= j < m ensures ws[..m][j] == ws'[j] * (1.0 - alpha) {
        EmaWeightsStep(alpha, m - 1, j);
      }
      EmaWeightsStep(alpha, m - 1, 0);
      SumOfScaled(ws', ws[..m], 1.0 - alpha);
      SumSnoc(ws[..m], ws[m]);
      assert ws == ws[..m] + [ws[m]];
    }
  }

  /** ... and none is negative for alpha in [0, 1]. */
  lemma {:induction false} EmaWeightsNonNegative(alpha: real, m: nat, j: nat)
    requires 0.0 <= alpha <= 1.0 && j <= m
    ensures EmaWeights(alpha, m)[j] >= 0.0
  {
    hide Power;
    PowerNonNegative(1.0 - alpha, m);
    PowerNonNegative(1.0 - alpha, m - j);
    ProductMonotone(0.0, alpha, 0.0, Power(1.0 - alpha, m - j));
  }

  lemma {:induction false} PowerNonNegative(x: real, n: nat)
    requires x >= 0.0
    ensures Power(x, n) >= 0.0
  {
    if n > 0 {
      PowerNonNegative(x, n - 1);
      ProductMonotone(0.0, Power(x, n - 1), 0.0, x);
    }
  }

  lemma EmaWeightsOne(alpha: real)
    ensures EmaWeights(alpha, 0) == [1.0] && Sum([1.0]) == 1.0
  {
    assert EmaWeights(alpha, 0)[0] == EmaWeight(alpha, 0, 0) == 1.0;
    assert [1.0][..0] == [];
  }

  /** One window at a time, in order: the centroid starts as the prior one and each window gets weight alpha. */
  lemma {:induction false} EmaStep(alpha: real, c: Embedding, es: seq<Embedding>, e: Embedding, i: nat)
    requires i < EMBED_DIM
    ensures Ema(alpha, c, []) == c
    ensures Ema(alpha, c, es + [e])[i] == alpha * e[i] + (1.0 - alpha) * Ema(alpha, c, es)[i]
  {
    hide Blend;
    assert (es + [e])[..|es|] == es;
    BlendCoordinate(alpha, e, Ema(alpha, c, es), i);
  }

  /** Blending windows of norm at most 1 into a centroid of norm at most 1 keeps it there. */
  lemma {:induction false} EmaNorm(alpha: real, c: Embedding, es: seq<Embedding>)
    requires 0.0 <= alpha <= 1.0 && SquaredNorm(c) <= 1.0
    requires forall e :: e in es ==> SquaredNorm(e) <= 1.0
    ensures SquaredNorm(Ema(alpha, c, es)) <= 1.0
  {
    hide SquaredNorm;
    if es != [] {
      var prior, e := Ema(alpha, c, es[..|es|-1]), es[|es|-1];
      EmaNorm(alpha, c, es[..|es|-1]);
      BlendNorm(alpha, e, prior);
      MixAtMostOne(alpha, SquaredNorm(e), SquaredNorm(prior));
    }
  }

  lemma MixAtMostOne(alpha: real, x: real, y: real)
    requires 0.0 <= alpha <= 1.0 && x <= 1.0 && y <= 1.0
    ensures Mix(alpha, x, y) <= 1.0
  {
    ProductMonotone(0.0, alpha, 0.0, 1.0 - x);
    ProductMonotone(0.0, 1.0 - alpha, 0.0, 1.0 - y);
  }

  // ----- the alarm -----

  /** distance > threshold * sqrt(variance), told from the squares. */
  predicate TooFar(squaredDistance: real, threshold: real, variance: real) {
    variance > 0.0 && (threshold < 0.0 || squaredDistance > Square(threshold) * variance)
  }

  /** The comparison of squares is the source's comparison, for the true distance and deviation. */
  lemma {:induction false} TooFarMeaning(distance: real, std: real, threshold: real, variance: real)
    requires distance >= 0.0 && std >= 0.0 && Square(std) == (if variance > 0.0 then variance else 0.0)
    ensures TooFar(Square(distance), threshold, variance) <==> std > 0.0 && distance > threshold * std
  {
    if variance > 0.0 {
      assert std != 0.0;
      if threshold < 0.0 {
        ProductPositive(-threshold, std, -(threshold * std));
      } else {
        var limit := threshold * std;
        ProductMonotone(0.0, threshold, 0.0, std);
        assert Square(limit) == Square(threshold) * Square(std);
        if distance > limit {
          ProductPositive(distance - limit, distance + limit, Square(distance) - Square(limit));
        } else {
          ProductMonotone(distance, limit, distance, limit);
        }
      }
    } else if std > 0.0 {
      SquarePositive(std);
    }
  }

  /** Some window is too far from the centroid as blended up to it. */
  predicate Drifts(cfg: Config, prior: EntityProfile, es: seq<Embedding>) {
    exists j :: 0 <= j < |es| && DriftsAt(cfg, prior, es, j)
  }

  predicate DriftsAt(cfg: Config, prior: EntityProfile, es: seq<Embedding>, j: nat)
    requires j < |es|
  {
    TooFar(SquaredDistance(es[j], Ema(cfg.alpha, prior.centroid, es[..j])), cfg.driftAlarmStd, prior.variance)
  }

  // ----- profiles -----

  function ColdProfile(cfg: Config): EntityProfile {
    EntityProfile(cfg.globalMean, [], 0.0, 0, true)
  }

  /** A warm profile over a list of window embeddings: only the most recent ones count. */
  function ProfileOf(cfg: Config, all: seq<Embedding>, centroid: Embedding): EntityProfile {
    var recent := Suffix(all, cfg.historyLen);
    EntityProfile(centroid, recent, Spread(recent), |recent|, false)
  }

  function BuiltProfile(cfg: Config, all: seq<Embedding>): EntityProfile {
    ProfileOf(cfg, all, Normalised(cfg.norm, MeanVector(Suffix(all, cfg.historyLen))))
  }

  lemma SuffixOfSuffix<T>(s: seq<T>, more: seq<T>, k: nat)
    ensures Suffix(Suffix(s, k) + more, k) == Suffix(s + more, k)
  {
  }

  /** The most recent entries, by position: the last historyLen of them (all of a shorter list, and all for a
      length of 0). */
  predicate IsLatest(history: seq<Embedding>, all: seq<Embedding>, historyLen: nat) {
    && |history| == (if 1 <= historyLen < |all| then historyLen else |all|)
    && forall j :: 0 <= j < |history| ==> history[j] == all[|all| - |history| + j]
  }

  /** A warm profile of all these window embeddings, with a centroid along `direction`. */
  predicate Describes(cfg: Config, profile: EntityProfile, all: seq<Embedding>, direction: Embedding) {
    && !profile.coldStart
    && IsLatest(profile.history, all, cfg.historyLen)
    && profile.nRecords == |profile.history|
    && profile.variance == Spread(profile.history)
    && profile.centroid == Normalised(cfg.norm, direction)
  }

  lemma ProfileDescribes(cfg: Config, all: seq<Embedding>, direction: Embedding)
    ensures Describes(cfg, ProfileOf(cfg, all, Normalised(cfg.norm, direction)), all, direction)
  {
    hide Suffix, Spread, Normalised;
    SuffixExact(all, cfg.historyLen);
  }

  /** The history is bounded by its configured length exactly when that length is not zero (or
      there is nothing yet): a length of 0 keeps every embedding ever seen. */
  lemma {:induction false} HistoryBoundedIff(cfg: Config, all: seq<Embedding>, centroid: Embedding)
    ensures |ProfileOf(cfg, all, centroid).history| <= cfg.historyLen <==> cfg.historyLen > 0 || all == []
  {
  }

  /** The service over its entity store. `seen` is a history variable: all window embeddings
      of an entity since its last full build, in order. */
  class ReferenceEncoderService {
    const cfg: Config
    var store: map<string, EntityProfile>
    ghost var seen: map<string, seq<Embedding>>

    ghost predicate Valid()
      reads this
    {
      && cfg.seqLen >= 1
      && store.Keys == seen.Keys
      && forall id :: id in store ==>
           if store[id].coldStart then store[id] == ColdProfile(cfg) && seen[id] == []
           else seen[id] != [] && store[id] == ProfileOf(cfg, seen[id], store[id].centroid)
    }

    constructor (cfg: Config)
      requires cfg.seqLen >= 1
      ensures Valid() && this.cfg == cfg && store == map[]
    {
      this.cfg := cfg;
      store := map[];
      seen := map[];
    }

    /** Full build from the records the history provider returns. */
    method BuildProfileForEntity(records: seq<RawRecord>) returns (profile: EntityProfile)
      requires Valid()
      ensures profile == if records == [] then ColdProfile(cfg) else BuiltProfile(cfg, EmbedRecords(cfg, records))
    {
      if records == [] {
        return ColdProfile(cfg);
      }
      var embs := EncodeWindows(cfg, BuildWindows(records, cfg.seqLen));
      profile := BuiltProfile(cfg, embs);
    }

    /** Builds and stores; the history restarts from these records. */
    method Rebuild(id: string, records: seq<RawRecord>) returns (profile: EntityProfile)
      requires Valid()
      modifies this
      ensures Valid()
      ensures profile == if records == [] then ColdProfile(cfg) else BuiltProfile(cfg, EmbedRecords(cfg, records))
      ensures store == old(store)[id := profile]
      ensures seen == old(seen)[id := if records == [] then [] else EmbedRecords(cfg, records)]
      ensures records == [] ==> profile == EntityProfile(cfg.globalMean, [], 0.0, 0, true)
      ensures records != [] ==>
                Describes(cfg, profile, EmbedRecords(cfg, records), MeanVector(profile.history))
    {
      hide BuildWindows, Spread, Describes;
      if records != [] {
        ProfileDescribes(cfg, EmbedRecords(cfg, records),
                         MeanVector(Suffix(EmbedRecords(cfg, records), cfg.historyLen)));
      }
      profile := BuildProfileForEntity(records);
      SomeWindow(cfg, records);
      store := store[id := profile];
      seen := seen[id := if records == [] then [] else EmbedRecords(cfg, records)];
    }

    /** The incremental path blends the new windows one by one, raises the alarm exactly when one of
        them is too far from the centroid blended so far, and appends them to the bounded history;
        a missing or cold profile, or no new records, means a full build and no alarm. */
    method UpdateProfileIncremental(id: string, newRecords: seq<RawRecord>, allRecords: seq<RawRecord>)
      returns (profile: EntityProfile, driftAlarm: bool)
      requires Valid()
      modifies this
      ensures Valid() && store == old(store)[id := profile]
      ensures var rebuilds := id !in old(store) || old(store)[id].coldStart || newRecords == [];
              if rebuilds then
                && !driftAlarm
                && seen == old(seen)[id := if allRecords == [] then [] else EmbedRecords(cfg, allRecords)]
                && profile == (if allRecords == [] then ColdProfile(cfg)
                               else BuiltProfile(cfg, EmbedRecords(cfg, allRecords)))
                && (allRecords == [] ==> profile == EntityProfile(cfg.globalMean, [], 0.0, 0, true))
                && (allRecords != [] ==>
                      Describes(cfg, profile, EmbedRecords(cfg, allRecords), MeanVector(profile.history)))
              else
                var prior, es := old(store)[id], EmbedRecords(cfg, newRecords);
                && (driftAlarm <==> Drifts(cfg, prior, es))
                && seen == old(seen)[id := old(seen)[id] + es]
                && profile == ProfileOf(cfg, old(seen)[id] + es,
                                        Normalised(cfg.norm, Ema(cfg.alpha, prior.centroid, es)))
                && Describes(cfg, profile, old(seen)[id] + es, Ema(cfg.alpha, prior.centroid, es))
    {
      hide BuildWindows, Spread, Drifts, Ema, Normalised, Suffix, Describes, MeanVector;
      driftAlarm := false;
      if id !in store || store[id].coldStart || newRecords == [] {
        profile := Rebuild(id, allRecords);
        return;
      }
      var prior := store[id];
      var newEmbs := EncodeWindows(cfg, BuildWindows(newRecords, cfg.seqLen));
      SomeWindow(cfg, newRecords);
      var updated;
      updated, driftAlarm := BlendWindows(cfg, prior, newEmbs);
      var history := Suffix(prior.history + newEmbs, cfg.historyLen);
      SuffixOfSuffix(seen[id], newEmbs, cfg.historyLen);
      ProfileDescribes(cfg, seen[id] + newEmbs, updated);
      profile := EntityProfile(Normalised(cfg.norm, updated), history, Spread(history), |history|, false);
      store := store[id := profile];
      seen := seen[id := seen[id] + newEmbs];
    }
  }

  /** At any time every stored warm profile holds the latest of all window embeddings since its build. */
  lemma {:induction false} StoredHistoriesAreLatest(s: ReferenceEncoderService, id: string)
    requires s.Valid() && id in s.store
    ensures id in s.seen
    ensures s.store[id].coldStart ==> s.seen[id] == [] && s.store[id].history == []
    ensures !s.store[id].coldStart ==>
              IsLatest(s.store[id].history, s.seen[id], s.cfg.historyLen) && s.store[id].history != []
  {
    hide Suffix, Spread;
    SuffixExact(s.seen[id], s.cfg.historyLen);
  }

  /** The loop over the new windows: compare with the centroid so far, then blend. */
  method BlendWindows(cfg: Config, prior: EntityProfile, newEmbs: seq<Embedding>)
    returns (updated: Embedding, driftAlarm: bool)
    ensures updated == Ema(cfg.alpha, prior.centroid, newEmbs)
    ensures driftAlarm <==> Drifts(cfg, prior, newEmbs)
  {
    hide TooFar, SquaredDistance, Blend;
    updated, driftAlarm := prior.centroid, false;
    assert newEmbs[..0] == [];
    for j := 0 to |newEmbs|
      invariant updated == Ema(cfg.alpha, prior.centroid, newEmbs[..j])
      invariant driftAlarm <==> exists i :: 0 <= i < j && DriftsAt(cfg, prior, newEmbs, i)
    {
      assert newEmbs[..j+1][..j] == newEmbs[..j];
      if TooFar(SquaredDistance(newEmbs[j], updated), cfg.driftAlarmStd, prior.variance) {
        assert DriftsAt(cfg, prior, newEmbs, j);
        driftAlarm := true;
      }
      updated := Blend(cfg.alpha, newEmbs[j], updated);
    }
    assert newEmbs[..|newEmbs|] == newEmbs;
  }

  lemma SomeWindow(cfg: Config, records: seq<RawRecord>)
    requires cfg.seqLen >= 1
    ensures records != [] ==> EmbedRecords(cfg, records) != []
  {
    hide Ordered;
    OrderedLength(records);
    ChunksExact(Ordered(records), cfg.seqLen);
  }

  /** Normalising gives the unit vector in the same direction, except that the zero vector stays as it is. */
  lemma {:induction false} NormalisedIsUnit(norm: Vector -> real, v: Embedding)
    requires IsNorm(norm)
    ensures SquaredNorm(v) > 0.0 ==>
              && SquaredNorm(Normalised(norm, v)) == 1.0
              && norm(v) > 0.0
              && forall i :: 0 <= i < EMBED_DIM ==> v[i] == norm(v) * Normalised(norm, v)[i]
    ensures SquaredNorm(v) == 0.0 ==> Normalised(norm, v) == v
  {
    hide SquaredNorm;
    var k := norm(v);
    if k > 0.0 {
      SquarePositive(k);
      ScaledNorm(v, Normalised(norm, v), k);
    } else {
      assert k == 0.0 && Square(k) == 0.0;
    }
  }

  /** The centroid of a build: along the mean of the history, which averages each coordinate, and of length 1
      unless that mean is zero. */
  lemma {:induction false} BuiltCentroidExact(cfg: Config, all: seq<Embedding>, i: nat)
    requires IsNorm(cfg.norm) && all != [] && i < EMBED_DIM
    ensures var p := BuiltProfile(cfg, all);
            var m := MeanVector(p.history);
            && p.history != []
            && |p.history| as real * m[i] == Sum(Column(p.history, i))
            && (SquaredNorm(m) > 0.0 ==> SquaredNorm(p.centroid) == 1.0 && cfg.norm(m) > 0.0
                                         && m[i] == cfg.norm(m) * p.centroid[i])
            && (SquaredNorm(m) == 0.0 ==> p.centroid == m)
  {
    hide SquaredNorm, Suffix, Spread, Mean, Sum, Normalised;
    SuffixExact(all, cfg.historyLen);
    var recent := Suffix(all, cfg.historyLen);
    NormalisedIsUnit(cfg.norm, MeanVector(recent));
    MeanTimesCount(Column(recent, i));
  }

  lemma {:induction false} ScaledNorm(v: Vector, u: Vector, k: real)
    requires |u| == |v| && k > 0.0 && forall i :: 0 <= i < |v| ==> u[i] == v[i] / k
    ensures SquaredNorm(u) * Square(k) == SquaredNorm(v)
  {
    hide Square;
    if v != [] {
      var n := |v| - 1;
      ScaledNorm(v[..n], u[..n], k);
      QuotientSquare(v[n], k, u[n]);
      Distribute(Square(k), SquaredNorm(u[..n]), Square(u[n]));
    }
  }

  lemma QuotientSquare(x: real, k: real, q: real)
    requires k > 0.0 && q == x / k
    ensures Square(k) * Square(q) == Square(x)
  {
    assert x == k * q;
  }
}
