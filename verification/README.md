# Verified model of the anomaly-baseline and episode-retrieval pipeline

The model covers the parts of the system whose correctness spans several functions or a whole
run: the concurrent rolling baselines of Phase 0, the scorer and worker on top of them, the
episode retriever, the augmented-pair writer and reader, the reference profiles and the
ingestion loop. `dafny verify dfyconfig.toml` checks everything.

## Conventions

- Floating-point numbers are exact reals. Square roots are avoided: a z-score is kept as its
  signed square `z * |z|`, a standard deviation as its square, a distance as its square.
  `Scorer.ZScoreMeaning`, `Scorer.ThresholdOnSquares` and `Profiles.TooFarMeaning` prove that the
  comparisons on squares are the comparisons of the code.
- Redis is a map from keys to a state and a version that counts the key's SETs. WATCH records the
  version; EXEC succeeds only if it has not changed. Fields called `log`, `conflicts`, `answers`,
  `start`, `mark`, `got`, `history`, `seen`, `processed`, `handed` and `flushed` are history: they
  record what happened and decide nothing.
- Clocks, random pauses, jitter, shuffles, set iteration order, cache expiry, failing reads and
  writes, and raising polls are arbitrary. The encoder network, the field encoders, the embedding
  digest and the Euclidean norm are parameters.
- Each object the code mutates is a class, each loop a method with a loop; both are tied to
  functions on values, and the laws are proved about those functions.

## Files

| file | content |
|---|---|
| Statistics, Vectors, Lists, Sorting, Ordering, Wrappers | exact statistics, vectors, Python slices, stable sorting, string order |
| Welford, RollingBaseline | incremental moments and the sliding window |
| CommitLog, BaselineProtocol, BaselineSafety, BaselineCalls, RetryLoop | the update protocol: histories, the interleaving state machine, its theorems, what the steps say about each call, the retry loop |
| BucketKeys | bucket resolution and Redis key names |
| RobustStats, Scorer, Worker | median and MAD, scoring, the per-point cycle |
| EpisodeIndex, EpisodeSearch, CachedRetriever | exact index, filtered and batched search, query cache |
| AugPairs, PairReader, PairEpoch, StreamingStats | pair writer, view alignment, windows and sharding, one-pass statistics |
| RecordWindows, Profiles | windowing, encoding, padding; profiles, moving centroid, drift alarm |
| Ingestion | accumulator and polling loop |

## Where the code does not do what a reader may expect

Each is proved, with the exact condition where one exists.

- Stores with different window sizes can share a bucket; each write evicts at most one value, so
  the smaller size is not enforced: `RollingBaseline.MixedSizesOverflow`, `SizeBoundKeptIff`. The
  statistics stay exact for the stored window all the same (`ReplayExact`).
- A bucket whose spread is zero flags nothing, however wild the value: `Scorer.CanFlagIffSpread`.
  `SpreadZeroExact` says when: all values equal, or for median and MAD more than half of them
  equal to the median. `ConstantHistoryFlagsNothing` is a reachable family, `WildValuePasses` an
  instance under the default settings.
- VM and metric names containing colons can share a Redis key: `BucketKeys.CollisionExact`
  says exactly when, `ColonsCollide` gives an instance.
- The over-fetch margin of 5 can under-fill a search: `EpisodeSearch.SearchCompleteExact` is the
  exact condition, `MarginUnderfills` an index for every k on which nothing is found.
- An empty exclusion string filters but does not widen the search, so `search` and
  `batch_search` can differ: `EpisodeSearch.BatchRowExact` says exactly when,
  `EmptyExclusionDiffers` gives an index for every k.
- With an exclusion, searches for 0 and even -1 to -4 results are accepted and can return one result,
  so "at most k results" fails: `EpisodeSearch.LengthBoundExact` says exactly when it holds.
- The cache is not transparent. Its key writes "unknown" for no exclusion and for the empty one,
  omits k, and keeps 8 digits of the digest, so an entity called "unknown", an empty exclusion,
  another k or a colliding embedding can get somebody else's answer.
  `CachedRetriever.TransparentExact` and `RunTransparentExact` say exactly which queries and runs
  are safe, `TransparentIffInterchangeable` says it in terms of the ranking, `StandInsExact` and
  `DifferentKExact` settle the stand-ins and k, `EpisodeSearch.OtherEmbeddingExact` the colliding
  embeddings.
- A row group that cuts a pair in two: `PairReader.ConfiguredAlignmentExact` is the exact condition
  for the configured window length and stride. With one pair per row the group that starts with
  the left-over "b" half misaligns every row of every window of that entity
  (`LeadingHalfMisaligns`); the group that ends with the "a" half stays aligned
  (`TrailingHalfStaysAligned`).
- An encoder length shorter than the windows loses records, and a length of 0 keeps everything:
  `RecordWindows.WindowingLosesNothingExact`. A profile history length of 0 means no bound:
  `Profiles.HistoryBoundedIff`.

## Model

| member | source | states |
|---|---|---|
| Welford.UpdateExact | phase0/baseline/welford_accumulator.py:21-28 | folding a value into the exact moments of a list gives the exact moments of the longer list |
| Welford.FoldExact | phase0/baseline/welford_accumulator.py:21-28 | the moments folded over any list are its length, exact mean and exact sum of squared deviations |
| Welford.RemoveExact | phase0/baseline/welford_accumulator.py:31-56 | removing a value folded in at any position gives the moments of the list without it; the clamp at zero never acts |
| Welford.RemoveInvertsUpdate | phase0/baseline/welford_accumulator.py:31-56 | on every reachable accumulator removal undoes the update, and it raises exactly on the empty one |
| Welford.RemoveClamps | phase0/baseline/welford_accumulator.py:31-56 | from any accumulator, reachable or not, removal leaves no negative squared deviations and otherwise keeps the algebraic result |
| RollingBaseline.ApplyUpdateExact | phase0/baseline/rolling_baseline_store.py:158-169 | one incremental update of an exact state is the exact state of the slid window |
| RollingBaseline.ReplayExact | phase0/baseline/rolling_baseline_store.py:158-169 | for writers of any window sizes the stored moments are exactly those of the stored window, which is a run of the latest values |
| RollingBaseline.SlidingWindowExact | phase0/baseline/rolling_baseline_store.py:158-169 | with one window size the state is the from-scratch statistics of the last min(n, W) values |
| RollingBaseline.LastNExact | phase0/baseline/rolling_baseline_store.py:162-167 | the last n values by position |
| RollingBaseline.SizeBoundKeptIff | phase0/baseline/rolling_baseline_store.py:165-167 | a writer leaves the window within its size exactly when it found it so |
| RollingBaseline.MixedSizesOverflow | phase0/baseline/rolling_baseline_store.py:165-167 | an instance where a store of size 1 leaves two values |
| BaselineSafety.NextKeepsInv | phase0/baseline/rolling_baseline_store.py:129-156 | every step of every client keeps the protocol's invariant |
| BaselineSafety.ConflictIsPaid | phase0/baseline/rolling_baseline_store.py:142-151 | an aborted EXEC means another client committed to the key since this attempt's WATCH |
| BaselineSafety.NoLostOrDuplicatedUpdates | phase0/baseline/rolling_baseline_store.py:120-156 | in every interleaving the stored state is the fold over the committed values in commit order; a returned call is committed exactly once, inside its own duration, with the state it returned; a raised or running call never; no other commits exist |
| BaselineSafety.ReadsSeePrefixes | phase0/baseline/rolling_baseline_store.py:112-116 | every answer of get_bucket_state is the state after a prefix of the commit order |
| BaselineSafety.ReadsNeverGoBack | phase0/baseline/rolling_baseline_store.py:112-116 | later answers reflect at least the commits of earlier ones |
| BaselineSafety.StoredWindowIsExact | phase0/baseline/rolling_baseline_store.py:120-169 | in every interleaving with one window size a stored bucket is the exact statistics of the last min(n, W) values committed to it |
| BaselineSafety.RetryErrorNeedsContention | phase0/baseline/rolling_baseline_store.py:129-156 | the retry error implies at least 100 commits to the key, all by other clients, during the call |
| BaselineSafety.ConflictsBoundedByCommits | phase0/baseline/rolling_baseline_store.py:129-151 | conflicts on a key are at most commits on it times (clients - 1) |
| BaselineSafety.SleepIsBounded | phase0/baseline/rolling_baseline_store.py:38-48 | the pauses of a call add up to at most 4.763 s |
| BaselineSafety.BackoffExact | phase0/baseline/rolling_baseline_store.py:149 | the bound of a pause: 1, 2, 4, 8, 16, 32 ms, then 50 ms |
| BaselineSafety.SleepBoundValue | phase0/baseline/rolling_baseline_store.py:149-150 | total backoff after n conflicts: 63 ms for the first six, 50 ms for each later one, 4.763 s after 100 |
| BaselineCalls.CallsAccounted | phase0/baseline/rolling_baseline_store.py:129-156 | told from the steps of the run alone: every call is one that was requested, its attempts are its aborted EXECs and its sleep the sum of their pauses; it raises exactly at the 100th abort, a running or returned call has fewer |
| BaselineCalls.ReadsAreCurrent | phase0/baseline/rolling_baseline_store.py:112-116 | each read is answered with the state of its key at that moment of the commit order |
| BaselineCalls.OneAnswerPerRead | phase0/baseline/rolling_baseline_store.py:112-116 | one answer for each read request |
| BaselineCalls.NobodyIsStuck | phase0/baseline/rolling_baseline_store.py:129-151 | every client can always move, with any pause up to the bound |
| BaselineCalls.LeftAloneCommits | phase0/baseline/rolling_baseline_store.py:130-141 | from every reachable state an attempt that is left alone commits and returns the state with its value folded in |
| RetryLoop.Attempt | phase0/baseline/rolling_baseline_store.py:130-151 | one pipeline block commits exactly its own update with the state it returns, or is aborted by somebody else's commit to the key |
| RetryLoop.UpdateBucket | phase0/baseline/rolling_baseline_store.py:120-156 | the loop, with arbitrary commits of others between its commands: committed exactly once and last with fewer than 100 aborted attempts, or not at all after exactly 100 and at least 100 commits to the key by others; one bounded pause per aborted attempt, 4.763 s at most together |
| BucketKeys.ParseInvertsRedisKey | phase0/baseline/rolling_baseline_store.py:78-87 | a parser reads hour, weekend flag and joined name back from every key |
| BucketKeys.CollisionExact | phase0/baseline/rolling_baseline_store.py:78-87 | two keys print alike exactly when hour, flag and colon-joined names agree |
| BucketKeys.RedisKeyInjective | phase0/baseline/rolling_baseline_store.py:78-87 | with colon-free metric names distinct keys print differently |
| BucketKeys.RedisKeyInjectiveByVm | phase0/baseline/rolling_baseline_store.py:78-87 | and so with colon-free VM names |
| BucketKeys.ColonsCollide | phase0/baseline/rolling_baseline_store.py:78-87 | an instance of two series sharing a key |
| BucketKeys.KeyTexts | phase0/baseline/rolling_baseline_store.py:78-87 | what global, weekend, weekday and unsplit keys look like |
| BucketKeys.ResolverExact | phase0/bucketing/bucket_key_resolver.py:34-40 | the resolver accepts exactly the divisors of 24 and their negatives |
| BucketKeys.ResolveExact | phase0/bucketing/bucket_key_resolver.py:42-51 | a reading's key: its series, the block of its hour and, if split, its side of the weekend |
| BucketKeys.SameBucketExact | phase0/bucketing/bucket_key_resolver.py:29-51 | for every accepted granularity two readings share a bucket exactly when they lie in the same hour block and, if split, on the same side of the weekend |
| RobustStats.OrderStatisticExact | phase0/baseline/robust_stats_accumulator.py:26-29 | the sorted position is the k-th smallest value as defined by counting, both ways |
| RobustStats.SmallMedians | phase0/baseline/robust_stats_accumulator.py:26-38 | the median of no, one and two values, and the deviation of none |
| RobustStats.MedianAffine | phase0/baseline/robust_stats_accumulator.py:26-29 | the median follows every change of units, also with negative slope, for odd and even lengths |
| RobustStats.MadAffine | phase0/baseline/robust_stats_accumulator.py:32-38 | the deviation scales with the size of the slope |
| RobustStats.MajorityHoldsMedian | phase0/baseline/robust_stats_accumulator.py:26-29 | a majority of values inside an interval keeps the median inside it |
| RobustStats.BreakdownResistance | phase0/baseline/robust_stats_accumulator.py:26-38 | replacing fewer than half of the values keeps the median among the untouched ones and the deviation within their range |
| RobustStats.BreakdownIsSharp | phase0/baseline/robust_stats_accumulator.py:26-29 | half of the values, rounded up, suffice to push the median beyond any limit |
| RobustStats.HalfBeyondMad | phase0/baseline/robust_stats_accumulator.py:32-38 | at most half of any window lies farther from its median than its deviation |
| RobustStats.MadZeroExact | phase0/baseline/robust_stats_accumulator.py:32-38 | the deviation is zero exactly when more than half of the window equals the median, or nothing is there |
| Scorer.ThresholdOnSquares | phase0/scoring/zscore_scorer.py:78 | the model's comparison is abs(z) > threshold |
| Scorer.ZScoreMeaning | phase0/scoring/zscore_scorer.py:67-70 | for the true standard deviation the model's z and flag are the code's |
| Scorer.VerdictExact | phase0/scoring/zscore_scorer.py:53-81 | against an exact state: cold exactly below min_samples, the request repeated, the window's own statistics reported, and flagged exactly the values beyond the threshold |
| Scorer.ReportedZExact | phase0/scoring/zscore_scorer.py:66-81 | the reported z, sign included, and the flag are those of (value - mean) / std or 0.6745 (value - median) / MAD, zero for a zero spread |
| Scorer.ScoreUnits | phase0/scoring/zscore_scorer.py:59-81 | a change of units keeps both verdicts and only flips the sign of z, for both methods |
| Scorer.ChebyshevBound | phase0/scoring/zscore_scorer.py:67-78 | in every reachable state at most count / t^2 window members are flagged against their own baseline |
| Scorer.MedianMadBound | phase0/scoring/zscore_scorer.py:71-78 | in every reachable state, at a threshold of at least 0.6745, median and MAD flag at most half of the window against its own baseline |
| Scorer.CanFlagIffSpread | phase0/scoring/zscore_scorer.py:67-78 | a warm bucket can flag some value exactly when its spread is not zero |
| Scorer.SpreadZeroExact | phase0/scoring/zscore_scorer.py:67-78 | the spread is zero exactly when all values are equal, or for median and MAD when more than half equal the median |
| Scorer.ConstantHistoryFlagsNothing | phase0/scoring/zscore_scorer.py:67-78 | after any history of one repeated value neither method flags any value |
| Scorer.WildValuePasses | phase0/scoring/zscore_scorer.py:59-81 | an instance under the default threshold, sample minimum and window size |
| Worker.BaselineSnoc | phase0/workers/anomaly_scoring_worker.py:88-90 | the stored update is the from-scratch baseline of one more point |
| Worker.ResultsExact | phase0/workers/anomaly_scoring_worker.py:69-92 | every result of a run from the points alone: cold, flagged and described exactly by the last windowSize earlier values of its bucket and the configured threshold |
| Worker.ReportedZ | phase0/workers/anomaly_scoring_worker.py:84-86 | its z, sign included |
| Worker.ValuesInExact | phase0/workers/anomaly_scoring_worker.py:74-90 | the values a bucket has seen are those of its points, in order |
| Worker.SameBaselineExact | phase0/workers/anomaly_scoring_worker.py:74-77 | which points share a baseline, exactly: same series and, for a seasonal metric, same hour block and side of the weekend |
| Worker.AnomalyScoringWorker.ProcessPoint | phase0/workers/anomaly_scoring_worker.py:69-92 | the result is scored against the last values of earlier points in the bucket; other buckets untouched; a raising point leaves no trace |
| Worker.AnomalyScoringWorker.ProcessBatch | phase0/workers/anomaly_scoring_worker.py:94-113 | over any batches and faults the results are those of the stateless reference on the surviving points, and both counters count them |
| Worker.Causal | phase0/workers/anomaly_scoring_worker.py:84-92 | results never depend on later points |
| Worker.BucketsAreIsolated | phase0/workers/anomaly_scoring_worker.py:74-90 | a point gets the result it would get if only its bucket's points had been processed |
| Worker.UnitsNeverChangeVerdicts | phase0/workers/anomaly_scoring_worker.py:69-113 | over a whole run, new units for every bucket change no cold-start or anomaly verdict, for both methods |
| EpisodeIndex.FaissIndexer.Add | phase1/embedding_space/faiss_indexer.py:200-242 | appends vectors and metadata together or rejects the batch for its width, its length or an untrained index; given ids keep their meaning |
| EpisodeIndex.RankedExact | phase1/embedding_space/faiss_indexer.py:244-297 | the ranking lists every vector once, with its own distance, nearest first |
| EpisodeIndex.SearchTopKExact | phase1/embedding_space/faiss_indexer.py:275-297 | position by position: the nearest with their own distance and metadata, then id -1 without metadata |
| EpisodeSearch.IdealExact | phase2/detection/episode_retriever.py:134-164 | the ideal answer: exactly one episode per vector of other entities, with that vector's metadata, most similar first |
| EpisodeSearch.CollectIsTake | phase2/detection/episode_retriever.py:190-198 | for k >= 1 the loop with its early exit is filter, then take k |
| EpisodeSearch.SearchSound | phase2/detection/episode_retriever.py:185-198 | the answer is a prefix, of length at most k, of the ideal answer |
| EpisodeSearch.SearchCompleteExact | phase2/detection/episode_retriever.py:184-204 | it is the whole first min(k, others) exactly when the excluded entity holds at most 5 of the nearest k + 5 or nothing else ranks below them |
| EpisodeSearch.CompleteWithinMargin | phase2/detection/episode_retriever.py:184-198 | an entity with at most 5 of the k + 5 nearest vectors costs the answer nothing |
| EpisodeSearch.SimilarityIsCosine | phase2/detection/episode_retriever.py:93-102 | for unit vectors a similarity is the dot product and lies in [-1, 1] |
| EpisodeSearch.MarginUnderfills | phase2/detection/episode_retriever.py:184-204 | for every k an index with another entity in it on which the search finds nothing |
| EpisodeSearch.LengthBoundExact | phase2/detection/episode_retriever.py:184-198 | which searches are accepted, and when they return at most k results: for k >= 1 always, for k = 0 only if every fetched row is excluded, for k < 0 never |
| EpisodeSearch.ZeroResultsReturnsOne | phase2/detection/episode_retriever.py:185-198 | k = 0 with an exclusion returns one episode if any fetched row survives |
| EpisodeSearch.SameAnswerExact | phase2/detection/episode_retriever.py:184-198 | two searches for one embedding have the same answer exactly when the answers are equally long and, for different exclusions, neither entity is among that many nearest |
| EpisodeSearch.SameKExact | phase2/detection/episode_retriever.py:184-198 | for one k, different exclusions agree exactly when neither entity is among the k nearest |
| EpisodeSearch.MoreResultsExact | phase2/detection/episode_retriever.py:184-198 | asking for more changes nothing exactly when nothing more survives and what survives is at most k; without an exclusion, when the index holds at most k vectors |
| EpisodeSearch.OtherEmbeddingExact | phase2/detection/episode_retriever.py:184-198 | answers for two embeddings agree exactly when they list the same vectors, each equally far from both |
| EpisodeSearch.BatchAcceptedExact | phase2/detection/episode_retriever.py:255-268 | which batches are accepted: width, k, index and length of the exclusion list |
| EpisodeSearch.BatchRowExact | phase2/detection/episode_retriever.py:256-279 | a batch row equals the uncached search of that row with its own entry of the given list, except exactly characterised cases of an empty exclusion string |
| EpisodeSearch.EmptyExclusionDiffers | phase2/detection/episode_retriever.py:256-279 | for every k an index on which search and batch_search differ for the empty exclusion |
| CachedRetriever.CollectRow | phase2/detection/episode_retriever.py:190-198 | the filtering loop computes filter, then take k |
| CachedRetriever.EpisodeRetriever.Search | phase2/detection/episode_retriever.py:166-219 | answers and caches as the run model says; over any run of searches and expiries the answers are the uncached ones as long as the queries agree on their keys, and a run stays transparent exactly as long as they are |
| CachedRetriever.EpisodeRetriever.BatchSearch | phase2/detection/episode_retriever.py:221-279 | one index call answers every row, with the list-length error |
| CachedRetriever.CacheKeyExact | phase2/detection/episode_retriever.py:82-88 | two queries share a key exactly when entity part ("unknown" for none) and first 8 digest digits agree |
| CachedRetriever.TransparentExact | phase2/detection/episode_retriever.py:166-217 | all runs over given queries, with any expiries, give uncached answers exactly when no two of them share a key and deserve different answers |
| CachedRetriever.RunTransparentExact | phase2/detection/episode_retriever.py:166-217 | the same for one given run without expiries, query by query |
| CachedRetriever.TransparentIffInterchangeable | phase2/detection/episode_retriever.py:82-88 | without digest collisions: exactly when queries with one embedding and one entity part have equally many results and stand-ins that differ hit nothing among them |
| CachedRetriever.WellKeyedAgree | phase2/detection/episode_retriever.py:166-182 | a condition that suffices for every index: one k, no digest collision, no exclusion "unknown" or "" |
| CachedRetriever.StandInsExact | phase2/detection/episode_retriever.py:168 | None, "" and "unknown" share a key; one after the other is answered rightly exactly when neither entity is among the k nearest |
| CachedRetriever.DifferentKExact | phase2/detection/episode_retriever.py:87-88 | a query asked with another k shares the key and is answered rightly exactly when nothing more survives and what survives is at most k |
| AugPairs.AugmentBatch | generate_aug_pairs.py:128-168 | every row of a chunk becomes its block of a and b views with its global id |
| AugPairs.GeneratePairs | generate_aug_pairs.py:232-293 | for any layout and batch size one table per chunk, holding that chunk's pairs; together the pairs of all rows, ids 0 to total - 1 in order |
| AugPairs.SourceChunksExact | generate_aug_pairs.py:252-258 | the chunks put together are the rows of the file, none empty or longer than the batch size |
| Lists.ChunksAt | generate_aug_pairs.py:252-258 | chunks by position: chunk c starts at row c times the batch size |
| AugPairs.RowsExact | generate_aug_pairs.py:128-168 | the written rows by position: id, view, entity and metric of every row |
| AugPairs.EveryIdInBothViews | generate_aug_pairs.py:147-164 | every id of the file and no other occurs pairs-per-row times in each view |
| PairReader.AlignmentExact | phase1/data/streaming_aug_pairs_dataset.py:396-450 | the windows of an entity pair equal ids for every length and stride exactly when one view's rows carry the smallest ids of the other |
| PairReader.ConfiguredAlignmentExact | phase1/data/streaming_aug_pairs_dataset.py:396-450 | for one window length and stride: all windows of an entity pair equal ids exactly when the views agree, by counting, at every row a window holds |
| PairReader.GroupExact | phase1/data/streaming_aug_pairs_dataset.py:404-413 | a group is exactly its rows of the row group, each as often, by pair id, then timestamp, then metric name |
| PairReader.WindowsByNumber | phase1/data/streaming_aug_pairs_dataset.py:422-429 | window i is seq_len rows of both views from row i * stride on |
| Ordering.StringLeqExact | phase1/data/streaming_aug_pairs_dataset.py:404-413 | names compare at their first difference |
| PairReader.ViewsStayAligned | phase1/data/streaming_aug_pairs_dataset.py:396-450 | in row groups of whole written pairs the i-th rows of both views of every window have the same pair id, whatever the jitter |
| PairReader.LeadingHalfMisaligns | phase1/data/streaming_aug_pairs_dataset.py:404-428 | after a left-over "b" half, whole pairs (one per row) are misaligned in every row of every window of that entity |
| PairReader.TrailingHalfStaysAligned | phase1/data/streaming_aug_pairs_dataset.py:404-428 | a cut "a" half at the end leaves every window aligned |
| PairReader.SplitPairMisaligns | phase1/data/streaming_aug_pairs_dataset.py:404-428 | the smallest row group that violates the condition for all lengths and strides |
| PairReader.WindowsReachEnd | phase1/data/streaming_aug_pairs_dataset.py:422-429 | (n - L) div stride + 1 windows in bounds leave fewer than stride rows at the end |
| PairReader.RowCovered | phase1/data/streaming_aug_pairs_dataset.py:422-429 | with stride at most L every row before those lies in a window |
| PairEpoch.WindowsOfEntity | phase1/data/streaming_aug_pairs_dataset.py:422-429 | the range loop lists exactly the windows that fit |
| PairEpoch.ProcessRowGroup | phase1/data/streaming_aug_pairs_dataset.py:347-450 | a row group yields exactly its entities' windows, each as often, in some order |
| PairEpoch.GroupWindowsUnique | phase1/data/streaming_aug_pairs_dataset.py:434-450 | what a row group yields is determined up to order |
| PairEpoch.Iterate | phase1/data/streaming_aug_pairs_dataset.py:330-342 | a process yields exactly the windows of its own row groups |
| PairEpoch.ShardsPartition | phase1/data/streaming_aug_pairs_dataset.py:331-342 | whatever each row group yields, the shards of any number of workers together yield what all row groups do |
| PairEpoch.OwnGroupsExact | phase1/data/streaming_aug_pairs_dataset.py:331-342 | a single process reads every row group, worker id of N those with remainder id, each once |
| PairEpoch.SingleProcessYieldsAll | phase1/data/streaming_aug_pairs_dataset.py:330-450 | a single process yields the windows of every row group in turn; each window comes out as often as it occurs in the file |
| PairEpoch.EpochReadsEverythingOnce | phase1/data/streaming_aug_pairs_dataset.py:330-450 | any number of workers, shuffling as they like, together yield every window exactly as often as it occurs in the file, and as a single process does |
| StreamingStats.ComputeMetricValueStats | phase1/data/streaming_aug_pairs_dataset.py:192-227 | per metric the exact mean and population variance over all rows, for every layout; the clamp never acts |
| StreamingStats.MetricValuesExact | phase1/data/streaming_aug_pairs_dataset.py:200-204 | a metric's values are those of its rows, a missing one counting as 0.0 |
| StreamingStats.FloorExact | phase1/data/streaming_aug_pairs_dataset.py:219-221 | the returned deviation is the root of the variance, at least 0.000001 |
| StreamingStats.AddRowGroup | phase1/data/streaming_aug_pairs_dataset.py:197-212 | one row group's grouped totals extend the running ones exactly |
| StreamingStats.StreamingAgreesWithWelford | phase1/data/streaming_aug_pairs_dataset.py:214-221 | the streaming statistics equal those of a Welford fold over the same values |
| RecordWindows.OrderedExact | phase2/encoding/reference_encoder_service.py:288 | the sorted records are all records, chronological, names breaking ties and equal keys in arrival order |
| RecordWindows.WindowsStaySorted | phase2/encoding/record_encoder.py:99-101 | the encoder's second sort moves no record of a window, ties included |
| RecordWindows.WindowingLosesNothingExact | phase2/encoding/reference_encoder_service.py:278-289 | windows concatenate to the sorted records; what the encoder retains does so exactly when its length covers the longest window or is 0 |
| RecordWindows.EncodingLosesNothing | phase2/encoding/reference_encoder_service.py:291-303 | the window encodings in order are the encodings of the sorted records and their lengths add up to the number of records |
| RecordWindows.EncodeEntityRecords | phase2/encoding/record_encoder.py:77-126 | the row loop encodes exactly the most recent records, as many as its length, in chronological order |
| RecordWindows.WindowsExact | phase2/encoding/reference_encoder_service.py:278-289 | window i starts at record i * seq_len of the sorted records |
| Lists.SuffixExact | phase2/encoding/record_encoder.py:100-101 | the slice [-k:] by position, for positive, zero and negative k |
| RecordWindows.Collate | phase2/encoding/record_encoder.py:154-190 | padding: each row is its encoding followed by zero rows up to the longest; an empty batch is rejected |
| Sorting.SortStable | phase2/encoding/record_encoder.py:99 | the sort keeps tying elements in order |
| Profiles.EncodeWindows | phase2/encoding/reference_encoder_service.py:291-308 | cutting each padded row to its length recovers window i's encoding, so embeddings come out per window in order |
| Profiles.SpreadIsDistanceFromMean | phase2/encoding/reference_encoder_service.py:313-324 | the spread is the sum of squared distances from the mean over one less than the number of embeddings, and 0 for one |
| Profiles.EmbeddingsExact | phase2/encoding/reference_encoder_service.py:278-308 | embedding i is the network's output for the records from i * seq_len on |
| Profiles.BuiltCentroidExact | phase2/encoding/reference_encoder_service.py:313-324 | a build's centroid is the unit vector along the mean of its history |
| Profiles.EmaClosedForm | phase2/encoding/reference_encoder_service.py:423-434 | the blended centroid is the weighted sum of the prior centroid and the windows with powers of 1 - alpha |
| Profiles.EmaStep | phase2/encoding/reference_encoder_service.py:423-434 | each window in turn gets weight alpha, the centroid so far 1 - alpha |
| Profiles.EmaWeightsSumToOne | phase2/encoding/reference_encoder_service.py:434 | the weights add up to 1 |
| Profiles.EmaWeightsNonNegative | phase2/encoding/reference_encoder_service.py:434 | no weight is negative for alpha in [0, 1] |
| Profiles.EmaNorm | phase2/encoding/reference_encoder_service.py:423-434 | unit inputs keep the blended centroid inside the unit ball |
| Profiles.TooFarMeaning | phase2/encoding/reference_encoder_service.py:421-426 | the comparison of squares is the code's alarm test |
| Profiles.NormalisedIsUnit | phase2/encoding/reference_encoder_service.py:435-436 | normalising gives the unit vector in the same direction and leaves the zero vector alone |
| Profiles.BlendWindows | phase2/encoding/reference_encoder_service.py:419-434 | the alarm is raised exactly when some window is too far from the centroid blended up to it |
| Profiles.ReferenceEncoderService.Rebuild | phase2/encoding/reference_encoder_service.py:328-364 | a build keeps the last L embeddings by position, with their count, spread and normalised mean; no records give the cold profile |
| Profiles.ReferenceEncoderService.UpdateProfileIncremental | phase2/encoding/reference_encoder_service.py:389-451 | over any run the history is the last L of all window embeddings since the build; centroid, spread, count and alarm follow; otherwise a rebuild without alarm |
| Profiles.StoredHistoriesAreLatest | phase2/encoding/reference_encoder_service.py:438-449 | at any time a stored warm history is the last L of all embeddings since the build |
| Ingestion.BatchAccumulator.Flush | phase2/ingestion/batch_accumulator.py:68-92 | hands over the buffer object itself with the pending invalid count and starts a fresh one; an empty window emits nothing |
| Ingestion.IngestionPipeline.PollOnce | phase2/ingestion/ingestion_pipeline.py:85-98 | a poll's records enter the buffer in order, its invalid events are marked and both counters grow by them; a raising poll changes nothing |
| Ingestion.IngestionPipeline.FlushIfDue | phase2/ingestion/ingestion_pipeline.py:100-106 | a due flush hands over the buffer with exactly the waiting records and invalid count, exactly when the window has elapsed and something happened in it; the counters stay |
| Ingestion.IngestionPipeline.Run | phase2/ingestion/ingestion_pipeline.py:84-108 | the callback sees exactly the batches that fall due, records, invalid counts and source; the lists keep their contents; flushed and waiting events are all polled ones, valid and invalid; both counters grow by what the polls delivered |
| Ingestion.EventsAreConserved | phase2/ingestion/ingestion_pipeline.py:84-108 | over any turns, raising polls included, flushed records then waiting ones are all polled records in order, every invalid event is in one batch or waiting, and no batch is empty |
| Ingestion.FirstFlush | phase2/ingestion/ingestion_pipeline.py:100-106 | the first turn that finds the window elapsed flushes everything waiting as one batch and restarts the window |
| Ingestion.NotDueYet | phase2/ingestion/batch_accumulator.py:64-66 | before that nothing is flushed and everything is kept |
| Ingestion.TurnsCompose | phase2/ingestion/ingestion_pipeline.py:84-108 | runs compose, so later flushes are found the same way |
| Ingestion.RateInRange | phase2/ingestion/ingestion_pipeline.py:110-117 | the error rate lies in [0, 1] |

## Left out

- Floating-point rounding, NaN and infinities: arithmetic is exact; no bit-level claim is made.
- Redis, Kafka, Kinesis, Pub/Sub and MongoDB clients, JSON encoding, asyncio scheduling, logging.
- Errors other than a WATCH conflict inside update_bucket, an EXEC whose outcome is lost on the network, deletion or expiry of baseline keys.
- EpisodeIndex.SearchTopK: models an exact ranking with ties in id order; approximate probing of index cells, which can return fewer rows, is not modelled. FAISS itself rejects k <= 0 and is not part of this model beyond that.
- EpisodeIndex.Metadata: always carries an entity id; metadata without one makes the code raise, and that is not modelled.
- EpisodeSearch.Episode: keeps the id as a number (the code prints it) and the timestamp as given (the code parses it).
- CachedRetriever.EpisodeRetriever: the index does not change during a run of cached searches.
- Training and clamping of the index, saving and loading it.
- The encoder network, vocabularies and field normalisation: parameters of the model.
- Profiles.EncodeWindows: that the network's output ignores padding is assumed, by cutting each padded row to its length before encoding it.
- AugPairs.AugmentBatch: value masking and time features of a view are not modelled; jitter moves timestamps arbitrarily.
- PairEpoch.ProcessRowGroup: requires a stride of at least 1; a window carries its rows, not their tensors.
- Profiles.ReferenceEncoderService: requires seq_len of at least 1 and a history length of at least 0; write failures of the entity store are not modelled.
- The random pause is any value of its interval; nothing is said about its distribution.
- Mean-pool aggregation, schema checks, dead letters, latency counters, model registry, corpus synthesis: they would only add easy members.
