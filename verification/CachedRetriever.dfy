/** The retriever object: its filtering loops and its query cache
    (phase2/detection/episode_retriever.py, search and batch_search). */
module CachedRetriever {
  import opened Wrappers
  import opened Vectors
  import Sorting
  import opened EpisodeIndex
  import opened EpisodeSearch

  /** The loop over one row, with its early exit. */
  method CollectRow(row: seq<Neighbour>, k: int, exclude: Option<string>) returns (results: seq<Episode>)
    ensures results == Collect(row, k, exclude).1
    ensures k >= 1 ==> results == Take(Kept(row, exclude), k)
  {
    hide Excluded, ToEpisode;
    results := [];
    var i := 0;
    assert row[..0] == [];
    while i < |row|
      invariant 0 <= i <= |row|
      invariant Collect(row[..i], k, exclude) == (false, results)
    {
      assert row[..i+1][..i] == row[..i];
      if Excluded(row[i], exclude) {
        i := i + 1;
        continue;
      }
      var e := ToEpisode(row[i]);
      if e.Some? {
        results := results + [e.value];
      }
      i := i + 1;
      if |results| >= k {
        StoppedStays(row, i, k, exclude);
        if k >= 1 { CollectIsTake(row, k, exclude); }
        return;
      }
    }
    assert row[..|row|] == row;
    if k >= 1 { CollectIsTake(row, k, exclude); }
  }

  lemma {:induction false} StoppedStays(row: seq<Neighbour>, i: nat, k: int, exclude: Option<string>)
    requires i <= |row| && Collect(row[..i], k, exclude).0
    ensures Collect(row, k, exclude) == Collect(row[..i], k, exclude)
  {
    hide Excluded, ToEpisode;
    if i == |row| {
      assert row[..i] == row;
    } else {
      var init := row[..|row|-1];
      assert init[..i] == row[..i];
      StoppedStays(init, i, k, exclude);
    }
  }

  // ----- cache keys -----

  function EntityPart(exclude: Option<string>): string {
    if Truthy(exclude) then exclude.value else "unknown"
  }

  function First8(digest: string): string {
    if |digest| <= 8 then digest else digest[..8]
  }

  /** `digest` stands for the hex SHA-256 of the embedding's bytes; k is not part of the key. */
  function CacheKey(digest: Vector -> string, q: Query): string {
    "episode:" + EntityPart(q.exclude) + ":" + First8(digest(q.embedding))
  }

  /** Two queries share a key exactly when the entity parts and the first 8 digits of the digests
      agree; k plays no part. */
  lemma {:induction false} CacheKeyExact(digest: Vector -> string, p: Query, q: Query)
    requires forall v :: |digest(v)| >= 8
    ensures CacheKey(digest, p) == CacheKey(digest, q) <==>
              && (if Truthy(p.exclude) then p.exclude.value else "unknown") ==
                 (if Truthy(q.exclude) then q.exclude.value else "unknown")
              && digest(p.embedding)[..8] == digest(q.embedding)[..8]
  {
    hide Truthy;
    var a, b := CacheKey(digest, p), CacheKey(digest, q);
    var e, f, h, g := EntityPart(p.exclude), EntityPart(q.exclude),
                      First8(digest(p.embedding)), First8(digest(q.embedding));
    var head := "episode:";
    FirstEight(digest(p.embedding));
    FirstEight(digest(q.embedding));
    if a == b {
      assert a[|a| - 8..] == h && b[|b| - 8..] == g;
      assert a[|head|..|a| - 9] == e && b[|head|..|b| - 9] == f;
    }
  }

  lemma FirstEight(s: string)
    requires |s| >= 8
    ensures First8(s) == s[..8] && |First8(s)| == 8
  {
    if |s| == 8 {
      assert s[..8] == s;
    }
  }

  /** No two of the queries share a key and yet deserve different answers. A query that fails is
      never cached. */
  ghost predicate Agreeing(ix: Index, digest: Vector -> string, qs: seq<Query>)
    requires ix.Valid()
  {
    forall p, q :: p in qs && q in qs && CacheKey(digest, p) == CacheKey(digest, q) && PlainSearch(ix, p).Ok? ==>
      PlainSearch(ix, p) == PlainSearch(ix, q)
  }

  // ----- the cache over a run -----

  type Cache = map<string, seq<Episode>>

  /** What a run asks of the retriever; entries may expire at any time. */
  datatype Event = Asked(q: Query) | Expired(keys: set<string>)

  function Answer(ix: Index, digest: Vector -> string, cache: Cache, q: Query): Result<seq<Episode>, SearchError>
    requires ix.Valid()
  {
    var key := CacheKey(digest, q);
    if key in cache then Ok(cache[key]) else PlainSearch(ix, q)
  }

  /** A miss that succeeds is stored; a hit leaves the cache as it was. */
  function After(ix: Index, digest: Vector -> string, cache: Cache, event: Event): Cache
    requires ix.Valid()
  {
    match event
    case Expired(keys) => cache - keys
    case Asked(q) =>
      var key := CacheKey(digest, q);
      if key in cache || PlainSearch(ix, q).Err? then cache else cache[key := PlainSearch(ix, q).value]
  }

  function AfterRun(ix: Index, digest: Vector -> string, events: seq<Event>): Cache
    requires ix.Valid()
  {
    if events == [] then map[] else After(ix, digest, AfterRun(ix, digest, events[..|events|-1]), events[|events|-1])
  }

  lemma RunSnoc(ix: Index, digest: Vector -> string, events: seq<Event>, event: Event)
    requires ix.Valid()
    ensures AfterRun(ix, digest, events + [event]) == After(ix, digest, AfterRun(ix, digest, events), event)
  {
    assert (events + [event])[..|events|] == events;
  }

  /** Every answer of the run is the one an uncached search would give. */
  ghost predicate Transparent(ix: Index, digest: Vector -> string, events: seq<Event>)
    requires ix.Valid()
  {
    forall i :: 0 <= i < |events| && events[i].Asked? ==>
      Answer(ix, digest, AfterRun(ix, digest, events[..i]), events[i].q) == PlainSearch(ix, events[i].q)
  }

  /** The run asks nothing but these queries. */
  predicate AsksOnly(events: seq<Event>, qs: seq<Query>) {
    forall i :: 0 <= i < |events| && events[i].Asked? ==> events[i].q in qs
  }

  /** Every entry is the answer of one of the queries with its key. */
  ghost predicate CachedFrom(ix: Index, digest: Vector -> string, cache: Cache, qs: seq<Query>)
    requires ix.Valid()
  {
    forall key: string :: key in cache ==> Justified(ix, digest, qs, key, cache[key])
  }

  lemma {:induction false} RunCachesAnswers(ix: Index, digest: Vector -> string, events: seq<Event>, qs: seq<Query>)
    requires ix.Valid() && AsksOnly(events, qs)
    ensures CachedFrom(ix, digest, AfterRun(ix, digest, events), qs)
  {
    hide PlainSearch, CacheKey;
    if events != [] {
      var init, event := events[..|events|-1], events[|events|-1];
      RunCachesAnswers(ix, digest, init, qs);
      if event.Asked? {
        var i :| 0 <= i < |qs| && qs[i] == event.q;
      }
    }
  }

  /** Exactly when the cache never shows: every run over the queries, in any order, however often
      and with any expiries, is transparent if and only if no two of them share a key and deserve
      different answers. */
  lemma {:induction false} TransparentExact(ix: Index, digest: Vector -> string, qs: seq<Query>)
    requires ix.Valid()
    ensures (forall events :: AsksOnly(events, qs) ==> Transparent(ix, digest, events)) <==>
            Agreeing(ix, digest, qs)
  {
    hide PlainSearch, CacheKey;
    if Agreeing(ix, digest, qs) {
      forall events | AsksOnly(events, qs) ensures Transparent(ix, digest, events) {
        AgreeingRun(ix, digest, events, qs);
      }
    }
    if forall events :: AsksOnly(events, qs) ==> Transparent(ix, digest, events) {
      forall p, q | p in qs && q in qs && CacheKey(digest, p) == CacheKey(digest, q) && PlainSearch(ix, p).Ok?
        ensures PlainSearch(ix, p) == PlainSearch(ix, q)
      {
        assert AsksOnly([Asked(p), Asked(q)], qs);
        SecondAnswer(ix, digest, p, q);
      }
    }
  }

  lemma AgreeingRun(ix: Index, digest: Vector -> string, events: seq<Event>, qs: seq<Query>)
    requires ix.Valid() && AsksOnly(events, qs) && Agreeing(ix, digest, qs)
    ensures Transparent(ix, digest, events)
  {
    hide PlainSearch, CacheKey, AfterRun;
    forall i | 0 <= i < |events| && events[i].Asked?
      ensures Answer(ix, digest, AfterRun(ix, digest, events[..i]), events[i].q) == PlainSearch(ix, events[i].q)
    {
      RunCachesAnswers(ix, digest, events[..i], qs);
    }
  }

  /** A cold cache asked twice: the second answer is the first one's whenever the keys are equal. */
  lemma {:induction false} SecondAnswer(ix: Index, digest: Vector -> string, p: Query, q: Query)
    requires ix.Valid() && PlainSearch(ix, p).Ok?
    ensures Transparent(ix, digest, [Asked(p), Asked(q)]) <==>
              CacheKey(digest, p) != CacheKey(digest, q) || PlainSearch(ix, p) == PlainSearch(ix, q)
  {
    hide PlainSearch, CacheKey;
    var events := [Asked(p), Asked(q)];
    assert events[..1] == [Asked(p)] && events[..0] == [] && [Asked(p)][..0] == [];
    assert AfterRun(ix, digest, events[..1]) == map[CacheKey(digest, p) := PlainSearch(ix, p).value];
    assert Answer(ix, digest, AfterRun(ix, digest, events[..0]), events[0].q) == PlainSearch(ix, p);
    assert Transparent(ix, digest, events) <==>
             Answer(ix, digest, AfterRun(ix, digest, events[..1]), events[1].q) == PlainSearch(ix, q);
  }

  /** The run that asks these queries in turn, with no expiry. */
  function Asking(qs: seq<Query>): (events: seq<Event>)
    ensures |events| == |qs| && forall i :: 0 <= i < |qs| ==> events[i] == Asked(qs[i])
  {
    seq(|qs|, i requires 0 <= i < |qs| => Asked(qs[i]))
  }

  /** Every query deserves the answer of every earlier successful query with its key. */
  ghost predicate AgreeingInOrder(ix: Index, digest: Vector -> string, qs: seq<Query>)
    requires ix.Valid()
  {
    forall i, j ::
      0 <= i < j < |qs| && CacheKey(digest, qs[i]) == CacheKey(digest, qs[j]) && PlainSearch(ix, qs[i]).Ok? ==>
        PlainSearch(ix, qs[i]) == PlainSearch(ix, qs[j])
  }

  /** One particular run without expiries, exactly: it is transparent if and only if its queries
      agree in their order. */
  lemma {:induction false} RunTransparentExact(ix: Index, digest: Vector -> string, qs: seq<Query>)
    requires ix.Valid()
    ensures Transparent(ix, digest, Asking(qs)) <==>
            AgreeingInOrder(ix, digest, qs)
  {
    hide PlainSearch, CacheKey, AfterRun, Asking;
    var events := Asking(qs);
    if Transparent(ix, digest, events) {
      forall i, j | 0 <= i < j < |qs| && CacheKey(digest, qs[i]) == CacheKey(digest, qs[j])
                    && PlainSearch(ix, qs[i]).Ok?
        ensures PlainSearch(ix, qs[i]) == PlainSearch(ix, qs[j])
      {
        assert events[i].Asked? && events[j].Asked?;
        assert events[..i+1] == events[..i] + [events[i]];
        RunSnoc(ix, digest, events[..i], events[i]);
        EntryStays(ix, digest, events, CacheKey(digest, qs[i]), i + 1, j);
      }
    }
    if AgreeingInOrder(ix, digest, qs) {
      forall j | 0 <= j < |events| && events[j].Asked?
        ensures Answer(ix, digest, AfterRun(ix, digest, events[..j]), events[j].q) == PlainSearch(ix, events[j].q)
      {
        assert AsksOnly(events[..j], qs[..j]) by {
          assert forall i :: 0 <= i < j ==> qs[i] == qs[..j][i];
        }
        RunCachesAnswers(ix, digest, events[..j], qs[..j]);
      }
    }
  }

  /** Without expiries an entry stays as it is. */
  lemma {:induction false} EntryStays(ix: Index, digest: Vector -> string, events: seq<Event>, key: string,
                                      i: nat, j: nat)
    requires ix.Valid() && i <= j <= |events|
    requires forall m :: 0 <= m < |events| ==> events[m].Asked?
    requires key in AfterRun(ix, digest, events[..i])
    ensures key in AfterRun(ix, digest, events[..j])
    ensures AfterRun(ix, digest, events[..j])[key] == AfterRun(ix, digest, events[..i])[key]
  {
    hide PlainSearch, CacheKey, AfterRun;
    if i < j {
      EntryStays(ix, digest, events, key, i, j - 1);
      assert events[..j] == events[..j-1] + [events[j-1]];
      RunSnoc(ix, digest, events[..j-1], events[j-1]);
    }
  }

  /** The same in terms of the ranking, for searches that can be answered and whose embeddings do
      not collide: the cache never shows if and only if any two queries with one embedding and one
      entity part get equally many results and, where one excludes nothing, "" or "unknown" and
      the other something else, neither of those occurs among that many nearest vectors. */
  lemma {:induction false} TransparentIffInterchangeable(ix: Index, digest: Vector -> string, qs: seq<Query>)
    requires ix.Valid() && forall v :: |digest(v)| >= 8
    requires forall p, q :: p in qs && q in qs && First8(digest(p.embedding)) == First8(digest(q.embedding)) ==>
               p.embedding == q.embedding
    requires forall q :: q in qs ==> Answerable(ix, q)
    ensures (forall events :: AsksOnly(events, qs) ==> Transparent(ix, digest, events)) <==>
            forall p, q ::
              p in qs && q in qs && p.embedding == q.embedding && EntityPart(p.exclude) == EntityPart(q.exclude) ==>
                Interchangeable(ix, p, q)
  {
    hide PlainSearch, CacheKey, Interchangeable, First8, EntityPart, Answerable, Transparent;
    TransparentExact(ix, digest, qs);
    forall p, q | p in qs && q in qs
      ensures CacheKey(digest, p) == CacheKey(digest, q) <==>
                p.embedding == q.embedding && EntityPart(p.exclude) == EntityPart(q.exclude)
      ensures PlainSearch(ix, p).Ok?
      ensures p.embedding == q.embedding ==>
                (PlainSearch(ix, p) == PlainSearch(ix, q) <==> Interchangeable(ix, p, q))
    {
      KeyParts(digest, p, q);
      AnswersDescribe(ix, p);
      if p.embedding == q.embedding {
        SameAnswerExact(ix, p, q);
      }
    }
  }

  lemma KeyParts(digest: Vector -> string, p: Query, q: Query)
    requires forall v :: |digest(v)| >= 8
    ensures CacheKey(digest, p) == CacheKey(digest, q) <==>
              EntityPart(p.exclude) == EntityPart(q.exclude)
              && First8(digest(p.embedding)) == First8(digest(q.embedding))
  {
    CacheKeyExact(digest, p, q);
    FirstEight(digest(p.embedding));
    FirstEight(digest(q.embedding));
  }

  /** A condition that never looks at the index suffices: one k, no digest collision among the embeddings, and
      exclusions that are None or a name other than "" and the stand-in "unknown". */
  lemma {:induction false} WellKeyedAgree(ix: Index, digest: Vector -> string, qs: seq<Query>)
    requires ix.Valid() && forall v :: |digest(v)| >= 8
    requires forall p, q :: p in qs && q in qs ==> p.k == q.k
    requires forall p, q :: p in qs && q in qs && First8(digest(p.embedding)) == First8(digest(q.embedding)) ==>
               p.embedding == q.embedding
    requires forall q :: q in qs ==> q.exclude != Some("") && q.exclude != Some("unknown")
    ensures Agreeing(ix, digest, qs)
  {
    hide PlainSearch, First8, CacheKey;
    forall p, q | p in qs && q in qs && CacheKey(digest, p) == CacheKey(digest, q) ensures p == q {
      KeyParts(digest, p, q);
    }
  }

  /** None, "" and "unknown" are written alike into the key. */
  predicate StandsIn(exclude: Option<string>) {
    exclude.None? || exclude == Some("") || exclude == Some("unknown")
  }

  /** Two of those for one embedding and one k: they share a key, and a run over both is always
      transparent if and only if neither entity is among the k nearest vectors. */
  lemma {:induction false} StandInsExact(ix: Index, digest: Vector -> string, e: Vector, k: int,
                                         x: Option<string>, y: Option<string>)
    requires ix.Valid() && |e| == ENC_EMBED_DIM && k >= 1 && ix.vectors != []
    requires StandsIn(x) && StandsIn(y) && x != y
    ensures var p, q, row := Query(e, k, x), Query(e, k, y), RankedRow(ix, e);
            && CacheKey(digest, p) == CacheKey(digest, q)
            && (Transparent(ix, digest, [Asked(p), Asked(q)]) <==> NoneExcluded(row, k, x) && NoneExcluded(row, k, y))
  {
    hide PlainSearch, RankedRow, NoneExcluded, Transparent;
    AnswersDescribe(ix, Query(e, k, x));
    SecondAnswer(ix, digest, Query(e, k, x), Query(e, k, y));
    SameKExact(ix, e, k, x, y);
  }

  /** One query asked for k and then for more results: the keys are equal, and the second answer is
      right if and only if the wider fetch lets nothing more survive and what survives is at most
      k; without an exclusion, if and only if the index holds at most k vectors. */
  lemma {:induction false} DifferentKExact(ix: Index, digest: Vector -> string, e: Vector, k: int, more: int,
                                           exclude: Option<string>)
    requires ix.Valid() && |e| == ENC_EMBED_DIM && 1 <= k < more && ix.vectors != []
    ensures var p, q := Query(e, k, exclude), Query(e, more, exclude);
            && CacheKey(digest, p) == CacheKey(digest, q)
            && (Transparent(ix, digest, [Asked(p), Asked(q)]) <==> Survivors(ix, q) == Survivors(ix, p) <= k)
            && (exclude.None? ==> (Transparent(ix, digest, [Asked(p), Asked(q)]) <==> |ix.vectors| <= k))
  {
    hide PlainSearch, Survivors, Transparent;
    AnswersDescribe(ix, Query(e, k, exclude));
    SecondAnswer(ix, digest, Query(e, k, exclude), Query(e, more, exclude));
    MoreResultsExact(ix, e, k, more, exclude);
  }

  /** A cached answer was computed for some earlier query with that key. */
  ghost predicate Justified(ix: Index, digest: Vector -> string, asked: seq<Query>, key: string, answer: seq<Episode>)
    requires ix.Valid()
  {
    exists i :: 0 <= i < |asked| && CacheKey(digest, asked[i]) == key && PlainSearch(ix, asked[i]) == Ok(answer)
  }

  lemma TransparentSnoc(ix: Index, digest: Vector -> string, events: seq<Event>, q: Query)
    requires ix.Valid()
    ensures Transparent(ix, digest, events + [Asked(q)]) <==>
              Transparent(ix, digest, events)
              && Answer(ix, digest, AfterRun(ix, digest, events), q) == PlainSearch(ix, q)
  {
    hide PlainSearch, CacheKey, AfterRun, Answer;
    var longer := events + [Asked(q)];
    assert longer[..|events|] == events;
    assert forall i :: 0 <= i < |events| ==> longer[i] == events[i] && longer[..i] == events[..i];
    assert longer[|events|] == Asked(q);
    if Transparent(ix, digest, longer) {
      forall i | 0 <= i < |events| && events[i].Asked?
        ensures Answer(ix, digest, AfterRun(ix, digest, events[..i]), events[i].q) == PlainSearch(ix, events[i].q)
      {
        assert longer[i].Asked?;
      }
    }
  }

  // ----- the object -----

  class EpisodeRetriever {
    const index: Index
    const digest: Vector -> string
    const caching: bool
    var cache: Cache
    // History: every search and expiry so far.
    ghost var history: seq<Event>

    ghost predicate Valid()
      reads this
    {
      index.Valid() && cache == if caching then AfterRun(index, digest, history) else map[]
    }

    constructor (index: Index, digest: Vector -> string, caching: bool)
      requires index.Valid()
      ensures Valid() && history == [] && cache == map[]
      ensures this.index == index && this.digest == digest && this.caching == caching
    {
      this.index, this.digest, this.caching := index, digest, caching;
      cache := map[];
      history := [];
    }

    /** Entries may expire at any time. */
    method Expire(keys: set<string>)
      requires Valid()
      modifies this
      ensures Valid() && cache == old(cache) - keys && history == old(history) + [Expired(keys)]
    {
      RunSnoc(index, digest, history, Expired(keys));
      cache := cache - keys;
      history := history + [Expired(keys)];
    }

    /** Answers from the cache or from the index. A run stays transparent exactly as long as the
        answers are the uncached ones, and they are as long as the queries agree on their keys. */
    method Search(q: Query) returns (r: Result<seq<Episode>, SearchError>)
      requires Valid()
      modifies this
      ensures Valid() && history == old(history) + [Asked(q)]
      ensures r == if caching && CacheKey(digest, q) in old(cache)
                   then Ok(old(cache)[CacheKey(digest, q)]) else PlainSearch(index, q)
      ensures cache == if caching && r.Ok? then old(cache)[CacheKey(digest, q) := r.value] else old(cache)
      ensures caching ==> (Transparent(index, digest, history) <==>
                             Transparent(index, digest, old(history)) && r == PlainSearch(index, q))
      ensures forall qs :: AsksOnly(history, qs) && Agreeing(index, digest, qs) ==> r == PlainSearch(index, q)
    {
      hide PlainSearch, CacheKey, Agreeing, SearchTopK, Collect, AfterRun, Transparent, AsksOnly;
      var key := CacheKey(digest, q);
      ghost var before := history;
      history := history + [Asked(q)];
      if caching {
        RunSnoc(index, digest, before, Asked(q));
        TransparentSnoc(index, digest, before, q);
        forall qs | AsksOnly(history, qs) && Agreeing(index, digest, qs)
          ensures Transparent(index, digest, history)
        {
          AgreeingRun(index, digest, history, qs);
        }
      }
      if caching && key in cache {
        return Ok(cache[key]);
      }
      var found := SearchTopK(index, q.embedding, FetchK(q.k, Truthy(q.exclude), |index.vectors|));
      PlainSearchUnfolded(index, q);
      if found.Err? {
        return Err(found.error);
      }
      var results := CollectRow(found.value, q.k, q.exclude);
      r := Ok(results);
      if caching {
        cache := cache[key := results];
      }
    }

    /** One index call for the whole batch; the cache is neither read nor written. */
    method BatchSearch(embeddings: seq<Vector>, k: int, given: Option<seq<Option<string>>>)
      returns (r: Result<seq<seq<Episode>>, SearchError>)
      requires Valid()
      ensures r == PlainBatch(index, embeddings, k, given)
    {
      hide SearchTopK, Collect, RowAnswer;
      var exclusions := Exclusions(|embeddings|, given);
      var fetchK := FetchK(k, AnyExclusion(exclusions), |index.vectors|);
      if !Width(embeddings) {
        return Err(WrongWidth);
      }
      if fetchK <= 0 {
        return Err(NonPositiveK);
      }
      var all: seq<seq<Episode>> := [];
      for i := 0 to |embeddings|
        invariant i <= |exclusions|
        invariant |all| == i
        invariant forall j :: 0 <= j < i ==> all[j] == RowAnswer(index, embeddings[j], fetchK, k, exclusions[j])
      {
        if i >= |exclusions| {
          return Err(ExclusionListTooShort);
        }
        RowAnswerUnfolded(index, embeddings, i, fetchK, k, exclusions[i]);
        var results := CollectRow(SearchTopK(index, embeddings[i], fetchK).value, k, exclusions[i]);
        all := all + [results];
      }
      assert PlainBatch(index, embeddings, k, given).value == all;
      r := Ok(all);
    }
  }

  lemma PlainSearchUnfolded(ix: Index, q: Query)
    requires ix.Valid()
    ensures var found := SearchTopK(ix, q.embedding, FetchK(q.k, Truthy(q.exclude), |ix.vectors|));
            PlainSearch(ix, q) == if found.Err? then Err(found.error) else Ok(Collect(found.value, q.k, q.exclude).1)
  {
  }

  lemma RowAnswerUnfolded(ix: Index, embeddings: seq<Vector>, i: nat, f: int, k: int, exclude: Option<string>)
    requires ix.Valid() && Width(embeddings) && i < |embeddings| && f >= 1
    ensures SearchTopK(ix, embeddings[i], f).Ok?
    ensures RowAnswer(ix, embeddings[i], f, k, exclude) == Collect(SearchTopK(ix, embeddings[i], f).value, k, exclude).1
  {
    assert embeddings[i] in embeddings;
  }
}
