/** Nearest historical episodes, with self-retrieval filtering, batching and caching
    (phase2/detection/episode_retriever.py). */
module EpisodeSearch {
  import opened Wrappers
  import opened Vectors
  import opened Sorting
  import opened EpisodeIndex

  const OVERFETCH_MARGIN := 5

  datatype Episode = Episode(
    similarity: real, episodeId: int, entityId: string,
    timestamp: Option<string>, cloudProvider: string, severityLabel: Option<string>)

  datatype Query = Query(embedding: Vector, k: int, exclude: Option<string>)

  function Similarity(squaredDistance: real): real {
    1.0 - squaredDistance / 2.0
  }

  function ToEpisode(nb: Neighbour): Option<Episode> {
    if nb.metadata.None? then None
    else
      var m := nb.metadata.value;
      Some(Episode(Similarity(nb.distance), nb.id, m.entityId, m.timestamp, m.cloudProvider, m.severityLabel))
  }

  predicate Excluded(nb: Neighbour, exclude: Option<string>) {
    nb.metadata.Some? && exclude.Some? && nb.metadata.value.entityId == exclude.value
  }

  /** An empty entity id counts as "no exclusion" where the code tests truth, but not where it
      compares with None. */
  predicate Truthy(exclude: Option<string>) {
    exclude.Some? && exclude.value != ""
  }

  function FetchK(k: int, widen: bool, ntotal: nat): int {
    var wanted := if widen then k + OVERFETCH_MARGIN else k;
    if wanted < ntotal then wanted else ntotal
  }

  /** The filtering loop over one row of neighbours: whether it has stopped, and its results. */
  function Collect(row: seq<Neighbour>, k: int, exclude: Option<string>): (bool, seq<Episode>) {
    if row == [] then (false, [])
    else
      var nb, (stopped, results) := row[|row|-1], Collect(row[..|row|-1], k, exclude);
      if stopped || Excluded(nb, exclude) then (stopped, results)
      else
        var e := ToEpisode(nb);
        var results' := if e.Some? then results + [e.value] else results;
        (|results'| >= k, results')
  }

  function PlainSearch(ix: Index, q: Query): Result<seq<Episode>, SearchError>
    requires ix.Valid()
  {
    match SearchTopK(ix, q.embedding, FetchK(q.k, Truthy(q.exclude), |ix.vectors|))
    case Err(e) => Err(e)
    case Ok(row) => Ok(Collect(row, q.k, q.exclude).1)
  }

  /** None and the empty list both mean "exclude nothing". */
  function Exclusions(n: nat, given: Option<seq<Option<string>>>): seq<Option<string>> {
    if given.None? || given.value == [] then seq(n, _ => None) else given.value
  }

  predicate AnyExclusion(exclusions: seq<Option<string>>) {
    exists i :: 0 <= i < |exclusions| && exclusions[i].Some?
  }

  function PlainBatch(ix: Index, embeddings: seq<Vector>, k: int, given: Option<seq<Option<string>>>)
    : (r: Result<seq<seq<Episode>>, SearchError>)
    requires ix.Valid()
  {
    var n := |embeddings|;
    var exclusions := Exclusions(n, given);
    var fetchK := FetchK(k, AnyExclusion(exclusions), |ix.vectors|);
    if !Width(embeddings) then Err(WrongWidth)
    else if fetchK <= 0 then Err(NonPositiveK)
    else if |exclusions| < n then Err(ExclusionListTooShort)
    else Ok(seq(n, i requires 0 <= i < n => RowAnswer(ix, embeddings[i], fetchK, k, exclusions[i])))
  }

  /** One row of the batch, after the index call has succeeded. */
  function RowAnswer(ix: Index, e: Vector, fetchK: int, k: int, exclude: Option<string>): seq<Episode>
    requires ix.Valid()
  {
    match SearchTopK(ix, e, fetchK)
    case Err(_) => []
    case Ok(row) => Collect(row, k, exclude).1
  }

  // ----- the ideal answer -----

  /** What an episode must say about the vector with a given id. */
  function EpisodeOf(ix: Index, q: Vector, id: nat): Episode
    requires ix.Valid() && |q| == ENC_EMBED_DIM && id < |ix.vectors|
  {
    var m := ix.metadata[id];
    Episode(Similarity(SquaredDistance(q, ix.vectors[id])), id, m.entityId, m.timestamp, m.cloudProvider, m.severityLabel)
  }

  function RankedRow(ix: Index, q: Vector): (row: seq<Neighbour>)
    requires ix.Valid() && |q| == ENC_EMBED_DIM
    ensures |row| == |ix.vectors|
  {
    var ranked := Ranked(ix, q);
    seq(|ranked|, i requires 0 <= i < |ranked| => NeighbourOf(ix, ranked[i]))
  }

  /** The episodes that survive the filter, in order. */
  function Kept(row: seq<Neighbour>, exclude: Option<string>): (es: seq<Episode>)
    ensures |es| <= |row|
  {
    if row == [] then []
    else
      var es, nb := Kept(row[..|row|-1], exclude), row[|row|-1];
      if Excluded(nb, exclude) || ToEpisode(nb).None? then es else es + [ToEpisode(nb).value]
  }

  /** The whole ranking without the excluded entity. */
  function Ideal(ix: Index, q: Vector, exclude: Option<string>): seq<Episode>
    requires ix.Valid() && |q| == ENC_EMBED_DIM
  {
    Kept(RankedRow(ix, q), exclude)
  }

  function Take<T>(s: seq<T>, k: int): seq<T>
    requires k >= 0
  {
    if |s| <= k then s else s[..k]
  }

  /** Taking k from a longer list differs only when the shorter one has too few. */
  lemma TakePrefix<T>(s: seq<T>, more: seq<T>, k: int)
    requires k >= 0
    ensures Take(s + more, k) == Take(s, k) <==> |s| >= k || more == []
  {
    if |s| >= k {
      assert Take(s + more, k) == Take(s, k);
    } else if more == [] {
      assert s + more == s;
    } else {
      assert |Take(s + more, k)| > |Take(s, k)|;
    }
  }

  lemma {:induction false} KeptConcat(a: seq<Neighbour>, b: seq<Neighbour>, exclude: Option<string>)
    ensures Kept(a + b, exclude) == Kept(a, exclude) + Kept(b, exclude)
  {
    hide Excluded, ToEpisode;
    if b == [] {
      assert a + b == a;
    } else {
      KeptConcat(a, b[..|b|-1], exclude);
      assert (a + b)[..|a + b|-1] == a + b[..|b|-1];
    }
  }

  lemma KeptSplit(row: seq<Neighbour>, f: nat, exclude: Option<string>)
    requires f <= |row|
    ensures Kept(row, exclude) == Kept(row[..f], exclude) + Kept(row[f..], exclude)
  {
    assert row == row[..f] + row[f..];
    KeptConcat(row[..f], row[f..], exclude);
  }

  /** For k >= 1 the loop is "filter, then take k". */
  lemma {:induction false} CollectIsTake(row: seq<Neighbour>, k: int, exclude: Option<string>)
    requires k >= 1
    ensures Collect(row, k, exclude) == (|Kept(row, exclude)| >= k, Take(Kept(row, exclude), k))
  {
    hide Excluded, ToEpisode;
    if row != [] {
      var init := row[..|row|-1];
      CollectIsTake(init, k, exclude);
      TakePrefix(Kept(init, exclude), Kept(row, exclude)[|Kept(init, exclude)|..], k);
      assert Kept(row, exclude) == Kept(init, exclude) + Kept(row, exclude)[|Kept(init, exclude)|..];
    }
  }

  lemma {:induction false} KeptMembers(row: seq<Neighbour>, exclude: Option<string>, i: nat) returns (j: nat)
    requires i < |Kept(row, exclude)|
    ensures i <= j < |row| && !Excluded(row[j], exclude) && ToEpisode(row[j]) == Some(Kept(row, exclude)[i])
    ensures |Kept(row[..j], exclude)| == i
  {
    var init := row[..|row|-1];
    if i < |Kept(init, exclude)| {
      j := KeptMembers(init, exclude, i);
      assert init[..j] == row[..j];
    } else {
      j := |row| - 1;
    }
  }

  lemma {:induction false} KeptContains(row: seq<Neighbour>, exclude: Option<string>, j: nat)
    requires j < |row| && !Excluded(row[j], exclude) && ToEpisode(row[j]).Some?
    ensures ToEpisode(row[j]).value in Kept(row, exclude)
  {
    if j < |row| - 1 {
      KeptContains(row[..|row|-1], exclude, j);
    }
  }

  lemma RankedRowExact(ix: Index, q: Vector, j: nat)
    requires ix.Valid() && |q| == ENC_EMBED_DIM && j < |RankedRow(ix, q)|
    ensures var h := Ranked(ix, q)[j];
            && 0 <= h.id < |ix.vectors|
            && ToEpisode(RankedRow(ix, q)[j]) == Some(EpisodeOf(ix, q, h.id))
            && (forall e :: Excluded(RankedRow(ix, q)[j], e) <==> e == Some(ix.metadata[h.id].entityId))
  {
    hide SquaredDistance, Ranked;
    RankedExact(ix, q);
    assert Ranked(ix, q)[j] in Ranked(ix, q);
  }

  lemma EveryIdRanked(ix: Index, q: Vector, id: nat) returns (j: nat)
    requires ix.Valid() && |q| == ENC_EMBED_DIM && id < |ix.vectors|
    ensures j < |Ranked(ix, q)| && Ranked(ix, q)[j].id == id
  {
    hide SquaredDistance;
    var all := AllHits(ix, q);
    RankedIsOrder();
    SortSorts(all, NearerOrTied);
    assert all[id] in multiset(Ranked(ix, q));
    j :| 0 <= j < |Ranked(ix, q)| && Ranked(ix, q)[j] == all[id];
  }

  /** The ideal answer, described without sorting: exactly one episode for every vector of every
      other entity, each with that vector's own metadata, most similar first. */
  lemma {:induction false} IdealExact(ix: Index, q: Vector, exclude: Option<string>)
    requires ix.Valid() && |q| == ENC_EMBED_DIM
    ensures forall e :: e in Ideal(ix, q, exclude) <==>
              exists id: nat :: id < |ix.vectors| && e == EpisodeOf(ix, q, id) && Some(e.entityId) != exclude
    ensures forall i, j :: 0 <= i < j < |Ideal(ix, q, exclude)| ==>
              var es := Ideal(ix, q, exclude);
              es[i].similarity >= es[j].similarity && es[i].episodeId != es[j].episodeId
  {
    hide Kept, Ranked, RankedRow, EpisodeOf;
    var row, es := RankedRow(ix, q), Ideal(ix, q, exclude);
    forall e | e in es
      ensures exists id: nat :: id < |ix.vectors| && e == EpisodeOf(ix, q, id) && Some(e.entityId) != exclude
    {
      var i :| 0 <= i < |es| && es[i] == e;
      var j := KeptMembers(row, exclude, i);
      RankedRowExact(ix, q, j);
      EpisodeOfEntity(ix, q, Ranked(ix, q)[j].id);
    }
    forall id: nat | id < |ix.vectors| && Some(EpisodeOf(ix, q, id).entityId) != exclude
      ensures EpisodeOf(ix, q, id) in es
    {
      var j := EveryIdRanked(ix, q, id);
      RankedRowExact(ix, q, j);
      EpisodeOfEntity(ix, q, id);
      KeptContains(row, exclude, j);
    }
    forall i, j | 0 <= i < j < |es|
      ensures es[i].similarity >= es[j].similarity && es[i].episodeId != es[j].episodeId
    {
      IdealOrdered(ix, q, exclude, i, j);
    }
  }

  lemma EpisodeOfEntity(ix: Index, q: Vector, id: nat)
    requires ix.Valid() && |q| == ENC_EMBED_DIM && id < |ix.vectors|
    ensures EpisodeOf(ix, q, id).entityId == ix.metadata[id].entityId
  {
  }

  lemma KeptMonotone(row: seq<Neighbour>, b: nat, a: nat, exclude: Option<string>)
    requires b <= a <= |row|
    ensures |Kept(row[..b], exclude)| <= |Kept(row[..a], exclude)|
  {
    KeptSplit(row[..a], b, exclude);
    assert row[..a][..b] == row[..b];
  }

  lemma IdealOrdered(ix: Index, q: Vector, exclude: Option<string>, i: nat, j: nat)
    requires ix.Valid() && |q| == ENC_EMBED_DIM && i < j < |Ideal(ix, q, exclude)|
    ensures var es := Ideal(ix, q, exclude);
            es[i].similarity >= es[j].similarity && es[i].episodeId != es[j].episodeId
  {
    hide Ranked, SquaredDistance;
    var row, ranked := RankedRow(ix, q), Ranked(ix, q);
    var a := KeptMembers(row, exclude, i);
    var b := KeptMembers(row, exclude, j);
    if b <= a {
      KeptMonotone(row, b, a, exclude);
    }
    RankedExact(ix, q);
    assert NearerOrTied(ranked[a], ranked[b]);
    RankedRowExact(ix, q, a);
    RankedRowExact(ix, q, b);
  }

  // ----- plain search against the ideal -----

  lemma FetchedRow(ix: Index, q: Vector, f: int)
    requires ix.Valid() && |q| == ENC_EMBED_DIM && 1 <= f <= |ix.vectors|
    ensures SearchTopK(ix, q, f) == Ok(RankedRow(ix, q)[..f])
  {
    hide Ranked, NeighbourOf;
    assert SearchTopK(ix, q, f).value == RankedRow(ix, q)[..f];
  }

  /** The rows fetched for a query. */
  function Fetched(ix: Index, q: Query): (f: nat)
    requires q.k >= 1
    ensures f <= |ix.vectors| && (ix.vectors != [] ==> f >= 1)
  {
    FetchK(q.k, Truthy(q.exclude), |ix.vectors|)
  }

  predicate Answerable(ix: Index, q: Query) {
    |q.embedding| == ENC_EMBED_DIM && q.k >= 1 && ix.vectors != []
  }

  lemma SearchIsTake(ix: Index, q: Query)
    requires ix.Valid() && Answerable(ix, q)
    ensures PlainSearch(ix, q) ==
            Ok(Take(Kept(RankedRow(ix, q.embedding)[..Fetched(ix, q)], q.exclude), q.k))
  {
    hide RankedRow, Kept, SearchTopK, Collect;
    var f := Fetched(ix, q);
    FetchedRow(ix, q.embedding, f);
    CollectIsTake(RankedRow(ix, q.embedding)[..f], q.k, q.exclude);
  }

  /** Soundness: the answer is a prefix, of length at most k, of the ideal answer. */
  lemma {:induction false} SearchSound(ix: Index, q: Query)
    requires ix.Valid() && Answerable(ix, q)
    ensures PlainSearch(ix, q).Ok? && |PlainSearch(ix, q).value| <= q.k
    ensures PlainSearch(ix, q).value <= Ideal(ix, q.embedding, q.exclude)
  {
    hide RankedRow, Kept, PlainSearch;
    SearchIsTake(ix, q);
    KeptSplit(RankedRow(ix, q.embedding), Fetched(ix, q), q.exclude);
  }

  function ExcludedCount(row: seq<Neighbour>, exclude: Option<string>): nat {
    Count(row, (nb: Neighbour) => Excluded(nb, exclude))
  }

  lemma {:induction false} KeptLength(row: seq<Neighbour>, exclude: Option<string>)
    requires forall j :: 0 <= j < |row| ==> row[j].metadata.Some?
    ensures |Kept(row, exclude)| == |row| - ExcludedCount(row, exclude)
    ensures Kept(row, exclude) == [] <==> forall j :: 0 <= j < |row| ==> Excluded(row[j], exclude)
  {
    if row != [] {
      KeptLength(row[..|row|-1], exclude);
      assert ExcludedCount(row, exclude) ==
             ExcludedCount(row[..|row|-1], exclude) + if Excluded(row[|row|-1], exclude) then 1 else 0;
    }
  }

  lemma RankedHasMetadata(ix: Index, q: Vector)
    requires ix.Valid() && |q| == ENC_EMBED_DIM
    ensures forall j :: 0 <= j < |RankedRow(ix, q)| ==> RankedRow(ix, q)[j].metadata.Some?
  {
    hide Ranked;
    forall j | 0 <= j < |RankedRow(ix, q)| ensures RankedRow(ix, q)[j].metadata.Some? {
      RankedRowExact(ix, q, j);
    }
  }

  /** Completeness, exactly: the answer is the first min(k, number of others) of the ideal one
      if and only if the excluded entity holds at most 5 of the nearest k + 5 rows (0 of the nearest k when
      nothing or "" is excluded), or nothing else is ranked below them. */
  lemma {:induction false} SearchCompleteExact(ix: Index, q: Query)
    requires ix.Valid() && Answerable(ix, q)
    ensures var named := q.exclude.Some? && q.exclude != Some("");
            var row, margin := RankedRow(ix, q.embedding), if named then 5 else 0;
            var f := if q.k + margin < |row| then q.k + margin else |row|;
            PlainSearch(ix, q) == Ok(Take(Ideal(ix, q.embedding, q.exclude), q.k)) <==>
              || ExcludedCount(row[..f], q.exclude) <= margin
              || (forall j :: f <= j < |row| ==> Excluded(row[j], q.exclude))
  {
    hide RankedRow, Kept, PlainSearch, Ideal, ExcludedCount, Excluded;
    var row, f := RankedRow(ix, q.embedding), Fetched(ix, q);
    SearchIsTake(ix, q);
    KeptSplit(row, f, q.exclude);
    RankedHasMetadata(ix, q.embedding);
    KeptLength(row[..f], q.exclude);
    KeptLength(row[f..], q.exclude);
    assert Ideal(ix, q.embedding, q.exclude) == Kept(row, q.exclude) by { IdealDef(ix, q); }
    var kept, below := Kept(row[..f], q.exclude), Kept(row[f..], q.exclude);
    assert below == [] <==> forall j :: f <= j < |row| ==> Excluded(row[j], q.exclude) by {
      assert forall j :: 0 <= j < |row[f..]| ==> row[f..][j] == row[f + j];
      assert forall j :: f <= j < |row| ==> row[j] == row[f..][j - f];
    }
    TakePrefix(kept, below, q.k);
  }

  /** So an entity that holds at most 5 of the k + 5 nearest vectors never costs the answer a result. */
  lemma {:induction false} CompleteWithinMargin(ix: Index, q: Query)
    requires ix.Valid() && Answerable(ix, q) && q.exclude.Some? && q.exclude != Some("")
    requires var row := RankedRow(ix, q.embedding);
             ExcludedCount(row[..if q.k + 5 < |row| then q.k + 5 else |row|], q.exclude) <= 5
    ensures PlainSearch(ix, q) == Ok(Take(Ideal(ix, q.embedding, q.exclude), q.k))
  {
    hide RankedRow, Kept, PlainSearch, Ideal, ExcludedCount, Excluded;
    SearchCompleteExact(ix, q);
  }

  lemma IdealDef(ix: Index, q: Query)
    requires ix.Valid() && Answerable(ix, q)
    ensures Ideal(ix, q.embedding, q.exclude) == Kept(RankedRow(ix, q.embedding), q.exclude)
  {
  }

  /** For unit vectors every similarity is the dot product and lies in [-1, 1]. */
  lemma {:induction false} SimilarityIsCosine(ix: Index, q: Vector, id: nat)
    requires ix.Valid() && |q| == ENC_EMBED_DIM && id < |ix.vectors|
    requires SquaredNorm(q) == 1.0 && SquaredNorm(ix.vectors[id]) == 1.0
    ensures EpisodeOf(ix, q, id).similarity == Dot(q, ix.vectors[id])
    ensures -1.0 <= EpisodeOf(ix, q, id).similarity <= 1.0
  {
    hide SquaredNorm, Dot;
    DistanceAndDot(q, ix.vectors[id]);
    SquaredNormNonNegative(Difference(q, ix.vectors[id]));
  }

  /** Outside k >= 1 the bound on the length fails: a search for 0 results with an exclusion
      over-fetches 5 rows and returns the first episode that survives. */
  lemma {:induction false} ZeroResultsReturnsOne(ix: Index, q: Vector, entity: string)
    requires ix.Valid() && |q| == ENC_EMBED_DIM && ix.vectors != [] && entity != ""
    requires Kept(RankedRow(ix, q)[..FetchK(0, true, |ix.vectors|)], Some(entity)) != []
    ensures PlainSearch(ix, Query(q, 0, Some(entity))).Ok?
    ensures |PlainSearch(ix, Query(q, 0, Some(entity))).value| == 1
  {
    hide RankedRow, SearchTopK, Excluded, ToEpisode;
    var f := FetchK(0, true, |ix.vectors|);
    FetchedRow(ix, q, f);
    RankedHasMetadata(ix, q);
    CollectNonPositive(RankedRow(ix, q)[..f], 0, Some(entity));
  }

  lemma {:induction false} CollectNonPositive(row: seq<Neighbour>, k: int, exclude: Option<string>)
    requires k <= 0 && forall j :: 0 <= j < |row| ==> row[j].metadata.Some?
    ensures Collect(row, k, exclude).0 <==> Kept(row, exclude) != []
    ensures Collect(row, k, exclude).1 == Take(Kept(row, exclude), 1)
  {
    if row != [] {
      CollectNonPositive(row[..|row|-1], k, exclude);
    }
  }

  /** When a search succeeds at all: the named exclusion's margin admits k down to -4. */
  predicate Accepted(ix: Index, q: Query) {
    |q.embedding| == 128 && ix.vectors != []
    && (q.k >= 1 || (q.k >= -4 && q.exclude.Some? && q.exclude != Some("")))
  }

  /** "At most k results", exactly: among the accepted searches it holds for every k >= 1 and, for
      k = 0, only when every fetched row belongs to the excluded entity; otherwise a search for
      k <= 0 results returns one. */
  lemma {:induction false} LengthBoundExact(ix: Index, q: Query)
    requires ix.Valid()
    ensures PlainSearch(ix, q).Ok? <==> Accepted(ix, q)
    ensures Accepted(ix, q) ==>
              var row, f := RankedRow(ix, q.embedding), FetchK(q.k, Truthy(q.exclude), |ix.vectors|);
              && 1 <= f <= |row|
              && (|PlainSearch(ix, q).value| <= q.k <==>
                    q.k >= 1 || (q.k == 0 && forall j :: 0 <= j < f ==> Excluded(row[j], q.exclude)))
              && (q.k <= 0 ==> |PlainSearch(ix, q).value| ==
                               if forall j :: 0 <= j < f ==> Excluded(row[j], q.exclude) then 0 else 1)
  {
    hide RankedRow, Kept, Excluded, Collect, SearchTopK;
    SearchAccepts(ix, q);
    if Accepted(ix, q) {
      var f := FetchK(q.k, Truthy(q.exclude), |ix.vectors|);
      if q.k >= 1 {
        SearchSound(ix, q);
      } else {
        var fetched := RankedRow(ix, q.embedding)[..f];
        FetchedRow(ix, q.embedding, f);
        RankedHasMetadata(ix, q.embedding);
        CollectNonPositive(fetched, q.k, q.exclude);
        KeptLength(fetched, q.exclude);
      }
    }
  }

  lemma SearchAccepts(ix: Index, q: Query)
    requires ix.Valid()
    ensures PlainSearch(ix, q).Ok? <==> Accepted(ix, q)
  {
    hide Ranked, Collect;
  }

  // ----- which searches have the same answer -----

  /** The number of results: what survives of the fetched rows, at most k. */
  function AnswerLength(ix: Index, q: Query): nat
    requires ix.Valid() && Answerable(ix, q)
  {
    var survivors := Survivors(ix, q);
    if survivors < q.k then survivors else q.k
  }

  function Survivors(ix: Index, q: Query): nat
    requires ix.Valid() && Answerable(ix, q)
  {
    var fetched := RankedRow(ix, q.embedding)[..Fetched(ix, q)];
    CountWithin(fetched, q.exclude);
    |fetched| - ExcludedCount(fetched, q.exclude)
  }

  lemma CountWithin(row: seq<Neighbour>, exclude: Option<string>)
    ensures ExcludedCount(row, exclude) <= |row|
  {
  }

  lemma AnswerIsPrefix(ix: Index, q: Query)
    requires ix.Valid() && Answerable(ix, q)
    ensures Survivors(ix, q) == |Kept(RankedRow(ix, q.embedding)[..Fetched(ix, q)], q.exclude)|
    ensures AnswerLength(ix, q) <= |Ideal(ix, q.embedding, q.exclude)|
    ensures PlainSearch(ix, q) == Ok(Ideal(ix, q.embedding, q.exclude)[..AnswerLength(ix, q)])
  {
    hide RankedRow, Kept, PlainSearch, ExcludedCount;
    var row, f := RankedRow(ix, q.embedding), Fetched(ix, q);
    SearchIsTake(ix, q);
    SearchSound(ix, q);
    RankedHasMetadata(ix, q.embedding);
    KeptLength(row[..f], q.exclude);
    var answer, ideal := PlainSearch(ix, q).value, Ideal(ix, q.embedding, q.exclude);
    assert |answer| == AnswerLength(ix, q);
    assert answer == ideal[..|answer|];
  }

  /** No row among the first m belongs to the excluded entity. */
  predicate NoneExcluded(row: seq<Neighbour>, m: nat, exclude: Option<string>) {
    forall j :: 0 <= j < m && j < |row| ==> !Excluded(row[j], exclude)
  }

  lemma {:induction false} UnfilteredPrefix(row: seq<Neighbour>, m: nat, exclude: Option<string>)
    requires m <= |row| && NoneExcluded(row, m, exclude)
    requires forall j :: 0 <= j < |row| ==> row[j].metadata.Some?
    ensures |Kept(row[..m], exclude)| == m
    ensures forall j :: 0 <= j < m ==> ToEpisode(row[j]) == Some(Kept(row[..m], exclude)[j])
    ensures |Kept(row, exclude)| >= m && Kept(row, exclude)[..m] == Kept(row[..m], exclude)
  {
    if m > 0 {
      UnfilteredPrefix(row, m - 1, exclude);
      assert row[..m][..m-1] == row[..m-1];
    }
    KeptSplit(row, m, exclude);
  }

  lemma KeptEntity(row: seq<Neighbour>, exclude: Option<string>, i: nat)
    requires i < |Kept(row, exclude)|
    ensures Some(Kept(row, exclude)[i].entityId) != exclude
  {
    hide Kept;
    var j := KeptMembers(row, exclude, i);
  }

  /** Filtering one ranking for two different exclusions keeps the same first m episodes exactly
      when neither excluded entity occurs among the first m rows. */
  lemma {:induction false} FiltersAgreeExact(row: seq<Neighbour>, x: Option<string>, y: Option<string>, m: nat)
    requires x != y && m <= |Kept(row, x)| && m <= |Kept(row, y)|
    requires forall j :: 0 <= j < |row| ==> row[j].metadata.Some?
    ensures m <= |row|
    ensures Kept(row, x)[..m] == Kept(row, y)[..m] <==> NoneExcluded(row, m, x) && NoneExcluded(row, m, y)
  {
    hide Kept;
    if m > 0 {
      FiltersAgreeExact(row, x, y, m - 1);
      var a, b := Kept(row, x), Kept(row, y);
      if a[..m] == b[..m] {
        assert a[..m-1] == a[..m][..m-1] && b[..m-1] == b[..m][..m-1];
        UnfilteredPrefix(row, m - 1, x);
        UnfilteredPrefix(row, m - 1, y);
        KeptEntity(row, x, m - 1);
        KeptEntity(row, y, m - 1);
        assert a[m-1] == a[..m][m-1] == b[..m][m-1] == b[m-1];
        if !Excluded(row[m-1], x) {
          NextKept(row, x, m - 1);
        } else {
          NextKept(row, y, m - 1);
        }
        assert !Excluded(row[m-1], x) && !Excluded(row[m-1], y);
      }
      if NoneExcluded(row, m, x) && NoneExcluded(row, m, y) {
        UnfilteredPrefix(row, m, x);
        UnfilteredPrefix(row, m, y);
        assert a[..m] == b[..m];
      }
    }
  }

  /** After m untouched rows the next kept episode is the next row's, unless that is excluded. */
  lemma NextKept(row: seq<Neighbour>, exclude: Option<string>, m: nat)
    requires m < |row| && NoneExcluded(row, m, exclude) && !Excluded(row[m], exclude)
    requires forall j :: 0 <= j < |row| ==> row[j].metadata.Some?
    ensures |Kept(row, exclude)| > m && ToEpisode(row[m]) == Some(Kept(row, exclude)[m])
  {
    hide Kept;
    UnfilteredPrefix(row, m + 1, exclude);
    assert Kept(row, exclude)[..m+1][m] == Kept(row, exclude)[m];
  }

  /** Two searches for one embedding, exactly: they give the same answer when the answers are
      equally long and, for different exclusions, neither entity occurs among the first rows of
      that length. */
  predicate Interchangeable(ix: Index, p: Query, q: Query)
    requires ix.Valid() && Answerable(ix, p) && Answerable(ix, q)
  {
    var row, m := RankedRow(ix, p.embedding), AnswerLength(ix, p);
    && AnswerLength(ix, q) == m
    && (p.exclude == q.exclude || (NoneExcluded(row, m, p.exclude) && NoneExcluded(row, m, q.exclude)))
  }

  lemma {:induction false} SameAnswerExact(ix: Index, p: Query, q: Query)
    requires ix.Valid() && Answerable(ix, p) && Answerable(ix, q) && p.embedding == q.embedding
    ensures PlainSearch(ix, p) == PlainSearch(ix, q) <==> Interchangeable(ix, p, q)
  {
    hide RankedRow, Kept, PlainSearch, AnswerLength, Excluded, Survivors;
    AnswerIsPrefix(ix, p);
    AnswerIsPrefix(ix, q);
    RankedHasMetadata(ix, p.embedding);
    IdealDef(ix, p);
    IdealDef(ix, q);
    var m := AnswerLength(ix, p);
    if m == AnswerLength(ix, q) && p.exclude != q.exclude {
      FiltersAgreeExact(RankedRow(ix, p.embedding), p.exclude, q.exclude, m);
    }
  }

  /** For one k, different exclusions give the same answer exactly when neither entity is among
      the k nearest vectors. */
  lemma {:induction false} SameKExact(ix: Index, e: Vector, k: int, x: Option<string>, y: Option<string>)
    requires ix.Valid() && |e| == ENC_EMBED_DIM && k >= 1 && ix.vectors != [] && x != y
    ensures var row := RankedRow(ix, e);
            PlainSearch(ix, Query(e, k, x)) == PlainSearch(ix, Query(e, k, y)) <==>
              NoneExcluded(row, k, x) && NoneExcluded(row, k, y)
  {
    hide RankedRow, Kept, PlainSearch, Excluded, NoneExcluded, Survivors;
    var p, q, row := Query(e, k, x), Query(e, k, y), RankedRow(ix, e);
    SameAnswerExact(ix, p, q);
    AnswerIsPrefix(ix, p);
    AnswerIsPrefix(ix, q);
    var m, g := AnswerLength(ix, p), FetchK(k, false, |row|);
    assert NoneExcluded(row, k, x) == NoneExcluded(row, g, x) by { NoneExcludedWithin(row, k, g, x); }
    assert NoneExcluded(row, k, y) == NoneExcluded(row, g, y) by { NoneExcludedWithin(row, k, g, y); }
    if NoneExcluded(row, k, x) && NoneExcluded(row, k, y) {
      LengthUntouched(ix, p);
      LengthUntouched(ix, q);
    }
    if m == AnswerLength(ix, q) && NoneExcluded(row, m, x) && NoneExcluded(row, m, y) && m < g {
      NextIsExcluded(ix, p);
      NextIsExcluded(ix, q);
      BothExcluded(row[m], x, y);
    }
  }

  lemma BothExcluded(nb: Neighbour, x: Option<string>, y: Option<string>)
    requires Excluded(nb, x) && Excluded(nb, y)
    ensures x == y
  {
  }

  lemma NoneExcludedWithin(row: seq<Neighbour>, k: nat, g: nat, exclude: Option<string>)
    requires g == if k < |row| then k else |row|
    ensures NoneExcluded(row, k, exclude) <==> NoneExcluded(row, g, exclude)
  {
  }

  lemma LengthUntouched(ix: Index, q: Query)
    requires ix.Valid() && Answerable(ix, q) && NoneExcluded(RankedRow(ix, q.embedding), q.k, q.exclude)
    ensures AnswerLength(ix, q) == FetchK(q.k, false, |ix.vectors|)
  {
    hide RankedRow, Kept, PlainSearch, Excluded, Survivors;
    var row, f, g := RankedRow(ix, q.embedding), Fetched(ix, q), FetchK(q.k, false, |ix.vectors|);
    AnswerIsPrefix(ix, q);
    RankedHasMetadata(ix, q.embedding);
    UnfilteredPrefix(row[..f], g, q.exclude);
  }

  /** If the answer is short although nothing before its end was filtered, the next row was. */
  lemma NextIsExcluded(ix: Index, q: Query)
    requires ix.Valid() && Answerable(ix, q)
    requires AnswerLength(ix, q) < FetchK(q.k, false, |ix.vectors|)
    requires NoneExcluded(RankedRow(ix, q.embedding), AnswerLength(ix, q), q.exclude)
    ensures Excluded(RankedRow(ix, q.embedding)[AnswerLength(ix, q)], q.exclude)
  {
    hide RankedRow, Kept, PlainSearch, Excluded, Survivors;
    var row, f, m := RankedRow(ix, q.embedding), Fetched(ix, q), AnswerLength(ix, q);
    AnswerIsPrefix(ix, q);
    RankedHasMetadata(ix, q.embedding);
    if !Excluded(row[m], q.exclude) {
      NextKept(row[..f], q.exclude, m);
    }
  }

  /** For one exclusion, asking for more gives the same answer exactly when the wider fetch lets
      nothing more survive and what survives is at most k; without an exclusion that means
      exactly when the index holds at most k vectors. */
  lemma {:induction false} MoreResultsExact(ix: Index, e: Vector, k: int, more: int, exclude: Option<string>)
    requires ix.Valid() && |e| == ENC_EMBED_DIM && ix.vectors != [] && 1 <= k < more
    ensures var p, q := Query(e, k, exclude), Query(e, more, exclude);
            && (PlainSearch(ix, p) == PlainSearch(ix, q) <==> Survivors(ix, q) == Survivors(ix, p) <= k)
            && (exclude.None? ==> (PlainSearch(ix, p) == PlainSearch(ix, q) <==> |ix.vectors| <= k))
  {
    hide RankedRow, Kept, PlainSearch, Excluded, Survivors;
    var p, q, row := Query(e, k, exclude), Query(e, more, exclude), RankedRow(ix, e);
    SameAnswerExact(ix, p, q);
    AnswerIsPrefix(ix, p);
    AnswerIsPrefix(ix, q);
    KeptMonotone(row, Fetched(ix, p), Fetched(ix, q), exclude);
    if exclude.None? {
      NothingToExclude(row, k);
      NothingToExclude(row, more);
      LengthUntouched(ix, p);
      LengthUntouched(ix, q);
    }
  }

  lemma NothingToExclude(row: seq<Neighbour>, m: nat)
    ensures NoneExcluded(row, m, None)
  {
  }

  /** Answers for different embeddings are equal exactly when they list the same vectors in the
      same order and each is as far from one embedding as from the other. */
  lemma {:induction false} OtherEmbeddingExact(ix: Index, p: Query, q: Query)
    requires ix.Valid() && Answerable(ix, p) && Answerable(ix, q)
    ensures var a, b := PlainSearch(ix, p), PlainSearch(ix, q);
            && a.Ok? && b.Ok?
            && (forall i :: 0 <= i < |a.value| ==> 0 <= a.value[i].episodeId < |ix.vectors|)
            && (a == b <==>
                  && |a.value| == |b.value|
                  && forall i :: 0 <= i < |a.value| ==>
                       var id := a.value[i].episodeId;
                       && b.value[i].episodeId == id
                       && SquaredDistance(p.embedding, ix.vectors[id]) ==
                          SquaredDistance(q.embedding, ix.vectors[id]))
  {
    hide PlainSearch, SquaredDistance, Answerable;
    var a, b := PlainSearch(ix, p), PlainSearch(ix, q);
    AnswersDescribe(ix, p);
    AnswersDescribe(ix, q);
    if |a.value| == |b.value| && forall i :: 0 <= i < |a.value| ==>
         var id := a.value[i].episodeId;
         && b.value[i].episodeId == id
         && SquaredDistance(p.embedding, ix.vectors[id]) == SquaredDistance(q.embedding, ix.vectors[id])
    {
      assert a.value == b.value;
    }
  }

  lemma AnswersDescribe(ix: Index, q: Query)
    requires ix.Valid() && Answerable(ix, q)
    ensures PlainSearch(ix, q).Ok? && |q.embedding| == ENC_EMBED_DIM
    ensures forall i :: 0 <= i < |PlainSearch(ix, q).value| ==>
              var e := PlainSearch(ix, q).value[i];
              0 <= e.episodeId < |ix.vectors| && e == EpisodeOf(ix, q.embedding, e.episodeId)
  {
    hide RankedRow, Kept, PlainSearch, SquaredDistance, Ranked;
    SearchIsTake(ix, q);
    var fetched := RankedRow(ix, q.embedding)[..Fetched(ix, q)];
    forall i | 0 <= i < |PlainSearch(ix, q).value|
      ensures var e := PlainSearch(ix, q).value[i];
              0 <= e.episodeId < |ix.vectors| && e == EpisodeOf(ix, q.embedding, e.episodeId)
    {
      var j := KeptMembers(fetched, q.exclude, i);
      RankedRowExact(ix, q.embedding, j);
    }
  }

  // ----- batched search against plain search -----

  /** When a batch is accepted: all embeddings have the right width, the index is not empty, k is at least 1 (at
      least -4 if any row names an exclusion), and a given list of exclusions has one per row. */
  lemma {:induction false} BatchAcceptedExact(ix: Index, embeddings: seq<Vector>, k: int,
                                              given: Option<seq<Option<string>>>)
    requires ix.Valid()
    ensures PlainBatch(ix, embeddings, k, given).Ok? <==>
              && (forall i :: 0 <= i < |embeddings| ==> |embeddings[i]| == 128)
              && ix.vectors != []
              && (k >= 1 || (k >= -4 && given.Some? && exists i :: 0 <= i < |given.value| && given.value[i].Some?))
              && (given.Some? && given.value != [] ==> |given.value| >= |embeddings|)
  {
    hide RowAnswer;
    var n := |embeddings|;
    var exclusions := Exclusions(n, given);
    assert Width(embeddings) <==> forall i :: 0 <= i < n ==> |embeddings[i]| == 128;
    assert AnyExclusion(exclusions) <==>
             given.Some? && exists i :: 0 <= i < |given.value| && given.value[i].Some? by {
      if given.Some? && given.value != [] {
        assert exclusions == given.value;
      }
    }
  }

  /** A row of a batch equals the uncached search of that row with its own entry of the exclusion list (or none),
      unless that entry is the empty string: then exactly when the search's own k rows hold no such
      entity, or the five more that the batch fetches hold nothing else. */
  lemma {:induction false} BatchRowExact(ix: Index, embeddings: seq<Vector>, k: int,
                                         given: Option<seq<Option<string>>>, i: nat)
    requires ix.Valid() && ix.vectors != [] && k >= 1 && i < |embeddings|
    requires PlainBatch(ix, embeddings, k, given).Ok?
    ensures given.Some? && given.value != [] ==> i < |given.value|
    ensures |PlainBatch(ix, embeddings, k, given).value| == |embeddings|
    ensures |embeddings[i]| == ENC_EMBED_DIM
    ensures var exclude := if given.Some? && given.value != [] then given.value[i] else None;
            var row, n := RankedRow(ix, embeddings[i]), |ix.vectors|;
            var f, f5 := if k < n then k else n, if k + 5 < n then k + 5 else n;
            var batch := PlainBatch(ix, embeddings, k, given).value;
            PlainSearch(ix, Query(embeddings[i], k, exclude)) == Ok(batch[i]) <==>
              || exclude != Some("")
              || ExcludedCount(row[..f], exclude) == 0
              || (forall j :: f <= j < f5 ==> Excluded(row[j], exclude))
  {
    hide RankedRow, Kept, SearchTopK, Excluded, ExcludedCount, Collect, PlainSearch;
    var n, exclusions := |ix.vectors|, Exclusions(|embeddings|, given);
    var exclude, e := exclusions[i], embeddings[i];
    assert e in embeddings;
    var q := Query(e, k, exclude);
    var fb, fs, row := FetchK(k, AnyExclusion(exclusions), n), Fetched(ix, q), RankedRow(ix, e);
    FetchedRow(ix, e, fb);
    CollectIsTake(row[..fb], k, exclude);
    SearchIsTake(ix, q);
    assert PlainBatch(ix, embeddings, k, given).value[i] == Take(Kept(row[..fb], exclude), k);
    if exclude.None? {
      NothingExcluded(row, fs, fb, k, ix, e);
    } else if exclude == Some("") && fs < fb {
      OverfetchExact(ix, e, exclude, k, fs, fb);
    }
  }

  /** Without an exclusion, fetching more rows than k changes nothing. */
  lemma NothingExcluded(row: seq<Neighbour>, fs: nat, fb: nat, k: int, ix: Index, e: Vector)
    requires ix.Valid() && |e| == ENC_EMBED_DIM && row == RankedRow(ix, e)
    requires fs == FetchK(k, false, |row|) && fs <= fb <= |row| && k >= 1
    ensures Take(Kept(row[..fs], None), k) == Take(Kept(row[..fb], None), k)
  {
    hide RankedRow, Kept;
    RankedHasMetadata(ix, e);
    KeptSplit(row[..fb], fs, None);
    assert row[..fb][..fs] == row[..fs];
    KeptLength(row[..fs], None);
    CountNone(row[..fs], (nb: Neighbour) => Excluded(nb, None));
  }

  /** Fetching rows fs..fb more changes the answer unless nothing was filtered or nothing is gained. */
  lemma OverfetchExact(ix: Index, e: Vector, exclude: Option<string>, k: int, fs: nat, fb: nat)
    requires ix.Valid() && |e| == ENC_EMBED_DIM && fs == k && fs <= fb <= |RankedRow(ix, e)|
    ensures var row := RankedRow(ix, e);
            Take(Kept(row[..fs], exclude), k) == Take(Kept(row[..fb], exclude), k) <==>
              ExcludedCount(row[..fs], exclude) == 0 || forall j :: fs <= j < fb ==> Excluded(row[j], exclude)
  {
    hide RankedRow, Kept, Excluded, ExcludedCount;
    var row := RankedRow(ix, e);
    RankedHasMetadata(ix, e);
    KeptSplit(row[..fb], fs, exclude);
    assert row[..fb][..fs] == row[..fs] && row[..fb][fs..] == row[fs..fb];
    KeptLength(row[..fs], exclude);
    KeptLength(row[fs..fb], exclude);
    var kept, more := Kept(row[..fs], exclude), Kept(row[fs..fb], exclude);
    assert more == [] <==> forall j :: fs <= j < fb ==> Excluded(row[j], exclude) by {
      assert forall j :: 0 <= j < |row[fs..fb]| ==> row[fs..fb][j] == row[fs + j];
      assert forall j :: fs <= j < fb ==> row[j] == row[fs..fb][j - fs];
    }
    TakePrefix(kept, more, k);
  }

  // ----- inputs on which searches under-fill and batches differ -----

  /** n copies of e for the entity `name`, and one more vector for the entity "other". */
  function Crowded(name: string, n: nat, e: Vector, v: Vector): (ix: Index)
    requires |e| == |v| == ENC_EMBED_DIM
    ensures ix.Valid() && |ix.vectors| == n + 1
  {
    Index(seq(n, _ => e) + [v],
          seq(n, _ => Metadata(name, None, "aws", None)) + [Metadata("other", None, "aws", None)])
  }

  /** The copies are nearest, so the ranking keeps the order of the ids. */
  lemma CrowdedRanking(name: string, n: nat, e: Vector, v: Vector)
    requires |e| == |v| == ENC_EMBED_DIM
    ensures var ix := Crowded(name, n, e, v); Ranked(ix, e) == AllHits(ix, e)
  {
    hide SquaredDistance;
    DistanceToSelf(e);
    SquaredDistanceNonNegative(e, v);
    SortFixesSorted(AllHits(Crowded(name, n, e, v), e), NearerOrTied);
  }

  lemma CrowdedRow(name: string, n: nat, e: Vector, v: Vector)
    requires |e| == |v| == ENC_EMBED_DIM && name != "other"
    ensures var row := RankedRow(Crowded(name, n, e, v), e);
            && |row| == n + 1
            && (forall j :: 0 <= j < n ==> Excluded(row[j], Some(name)))
            && !Excluded(row[n], Some(name))
            && Kept(row, Some(name)) == [EpisodeOf(Crowded(name, n, e, v), e, n)]
  {
    hide SquaredDistance, Ranked, Kept;
    CrowdedRanking(name, n, e, v);
    CrowdedKept(name, n, e, v);
  }

  lemma CrowdedKept(name: string, n: nat, e: Vector, v: Vector)
    requires |e| == |v| == ENC_EMBED_DIM && name != "other"
    requires var ix := Crowded(name, n, e, v); Ranked(ix, e) == AllHits(ix, e)
    ensures Kept(RankedRow(Crowded(name, n, e, v), e), Some(name)) == [EpisodeOf(Crowded(name, n, e, v), e, n)]
  {
    hide SquaredDistance, Ranked, Kept;
    var ix := Crowded(name, n, e, v);
    var row := RankedRow(ix, e);
    RankedHasMetadata(ix, e);
    KeptLength(row[..n], Some(name));
    KeptSplit(row, n, Some(name));
    assert row[n..] == [row[n]];
    KeptOne(row[n], Some(name));
    RankedRowExact(ix, e, n);
  }

  lemma KeptOne(nb: Neighbour, exclude: Option<string>)
    requires nb.metadata.Some? && !Excluded(nb, exclude)
    ensures Kept([nb], exclude) == [ToEpisode(nb).value]
  {
    assert [nb][..0] == [];
  }

  lemma DistanceToSelf(e: Vector)
    ensures SquaredDistance(e, e) == 0.0
  {
    SquaredNormOfZeros(Difference(e, e));
  }

  lemma {:induction false} SquaredNormOfZeros(d: Vector)
    requires forall i :: 0 <= i < |d| ==> d[i] == 0.0
    ensures SquaredNorm(d) == 0.0
  {
    if d != [] {
      SquaredNormOfZeros(d[..|d|-1]);
    }
  }

  lemma SquaredDistanceNonNegative(e: Vector, v: Vector)
    requires |e| == |v|
    ensures SquaredDistance(e, v) >= 0.0
  {
    SquaredNormNonNegative(Difference(e, v));
  }

  /** For every k: when the excluded entity holds k + 5 vectors next to the query, the search finds
      nothing although another entity is in the index. */
  lemma {:induction false} MarginUnderfills(name: string, k: nat, e: Vector, v: Vector)
    requires |e| == |v| == ENC_EMBED_DIM && k >= 1 && name != "" && name != "other"
    ensures var ix := Crowded(name, k + OVERFETCH_MARGIN, e, v);
            && PlainSearch(ix, Query(e, k, Some(name))) == Ok([])
            && Ideal(ix, e, Some(name)) == [EpisodeOf(ix, e, k + OVERFETCH_MARGIN)]
  {
    hide RankedRow, Kept, PlainSearch, Excluded, Crowded, EpisodeOf;
    var n := k + OVERFETCH_MARGIN;
    var ix, q := Crowded(name, n, e, v), Query(e, k, Some(name));
    CrowdedRow(name, n, e, v);
    SearchIsTake(ix, q);
    RankedHasMetadata(ix, e);
    KeptLength(RankedRow(ix, e)[..n], q.exclude);
    IdealDef(ix, q);
  }

  /** For every k: with k nearest vectors of an entity with the empty name, excluding "" finds
      nothing in a plain search and the other entity's episode in a batch. */
  lemma {:induction false} EmptyExclusionDiffers(k: nat, e: Vector, v: Vector)
    requires |e| == |v| == ENC_EMBED_DIM && k >= 1
    ensures var ix := Crowded("", k, e, v);
            && PlainSearch(ix, Query(e, k, Some(""))) == Ok([])
            && PlainBatch(ix, [e], k, Some([Some("")])) == Ok([[EpisodeOf(ix, e, k)]])
  {
    hide RankedRow, Kept, PlainSearch, Excluded, Crowded, EpisodeOf, SearchTopK, Collect;
    var ix, q := Crowded("", k, e, v), Query(e, k, Some(""));
    CrowdedRow("", k, e, v);
    var row := RankedRow(ix, e);
    SearchIsTake(ix, q);
    RankedHasMetadata(ix, e);
    KeptLength(row[..k], q.exclude);
    var exclusions := Exclusions(1, Some([Some("")]));
    assert exclusions[0].Some?;
    FetchedRow(ix, e, k + 1);
    assert row[..k+1] == row;
    CollectIsTake(row, k, Some(""));
    assert PlainBatch(ix, [e], k, Some([Some("")])).value == [RowAnswer(ix, e, k + 1, k, Some(""))];
  }
}
