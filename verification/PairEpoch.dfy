/** One pass over the file: the windows of each row group, shuffled, with row groups dealt
    round-robin to workers (phase1/data/streaming_aug_pairs_dataset.py, __iter__ and
    _process_row_group). */
module PairEpoch {
  import opened Wrappers
  import opened Lists
  import opened AugPairs
  import opened PairReader

  method Shuffle<T>(s: seq<T>) returns (r: seq<T>)
    ensures multiset(r) == multiset(s)
  {
    r := s;
    for i := 0 to |s|
      invariant |r| == |s| && multiset(r) == multiset(s)
    {
      var j: nat :| j < |s|;
      r := r[i := r[j]][j := r[i]];
    }
  }

  function Entities(rows: seq<AugRow>): set<string> {
    set r | r in rows :: r.entityId
  }

  /** Exactly the windows of every entity, each as often as the entity's own list has it. */
  ghost predicate AreGroupWindows(windows: seq<WindowPair>, rows: seq<AugRow>, done: set<string>,
                                  seqLen: nat, stride: nat)
    requires stride >= 1
  {
    forall w: WindowPair :: multiset(windows)[w] ==
      if w.entityId in done then multiset(EntityWindows(rows, w.entityId, seqLen, stride))[w] else 0
  }

  lemma WindowsNameEntity(rows: seq<AugRow>, e: string, seqLen: nat, stride: nat)
    requires stride >= 1
    ensures forall w :: w in multiset(EntityWindows(rows, e, seqLen, stride)) ==> w.entityId == e
    ensures e !in Entities(rows) ==> EntityWindows(rows, e, seqLen, stride) == []
  {
    hide EntityWindows;
    forall w | w in multiset(EntityWindows(rows, e, seqLen, stride)) ensures w.entityId == e {
      assert w in EntityWindows(rows, e, seqLen, stride);
      var start := WindowShape(rows, e, seqLen, stride, w);
    }
    if EntityWindows(rows, e, seqLen, stride) != [] {
      NonemptyWindowsEntity(rows, e, seqLen, stride);
    }
  }

  lemma NonemptyWindowsEntity(rows: seq<AugRow>, e: string, seqLen: nat, stride: nat)
    requires stride >= 1 && EntityWindows(rows, e, seqLen, stride) != []
    ensures e in Entities(rows)
  {
    hide Group;
    GroupMembers(rows, e, A);
    var r := Group(rows, e, A)[0];
    assert r in Group(rows, e, A);
  }

  /** The index of one entity: its windows, in order of their start. */
  method WindowsOfEntity(rows: seq<AugRow>, e: string, seqLen: nat, stride: nat) returns (windows: seq<WindowPair>)
    requires stride >= 1
    ensures windows == EntityWindows(rows, e, seqLen, stride)
  {
    hide Group;
    var ga, gb := Group(rows, e, A), Group(rows, e, B);
    windows := [];
    if ga == [] || gb == [] {
      return;
    }
    var nRows := if |ga| < |gb| then |ga| else |gb|;
    if nRows < seqLen {
      return;
    }
    var start, i := 0, 0;
    WindowsReachEnd(nRows, seqLen, stride);
    while start < nRows - seqLen + 1
      invariant i == |windows| <= NumWindows(nRows, seqLen, stride) && start == i * stride
      invariant i < NumWindows(nRows, seqLen, stride) <==> start + seqLen <= nRows
      invariant windows == EntityWindows(rows, e, seqLen, stride)[..i]
      decreases NumWindows(nRows, seqLen, stride) - i
    {
      windows := windows + [WindowAt(ga, gb, e, start, seqLen)];
      StartExact(nRows, seqLen, stride, i + 1);
      start, i := start + stride, i + 1;
    }
  }

  /** A start is in range exactly when its number is. */
  lemma StartExact(n: nat, seqLen: nat, stride: nat, i: nat)
    requires stride >= 1 && seqLen <= n
    ensures i < NumWindows(n, seqLen, stride) <==> i * stride + seqLen <= n
    ensures i >= 1 ==> i * stride == (i - 1) * stride + stride
  {
    var k := NumWindows(n, seqLen, stride);
    assert n - seqLen == (k - 1) * stride + (n - seqLen) % stride;
    if i < k {
      StartInBounds(n, seqLen, stride, i);
    } else {
      Smaller(k, i, stride);
      assert k * stride == (k - 1) * stride + stride;
    }
    if i >= 1 {
      assert i * stride == (i - 1) * stride + stride;
    }
  }

  method ProcessRowGroup(rows: seq<AugRow>, seqLen: nat, stride: nat, shuffle: bool) returns (windows: seq<WindowPair>)
    requires stride >= 1
    ensures AreGroupWindows(windows, rows, Entities(rows), seqLen, stride)
  {
    hide EntityWindows;
    windows := [];
    var left := Entities(rows);
    while left != {}
      invariant left <= Entities(rows)
      invariant AreGroupWindows(windows, rows, Entities(rows) - left, seqLen, stride)
      decreases |left|
    {
      var e :| e in left;
      var own := WindowsOfEntity(rows, e, seqLen, stride);
      WindowsNameEntity(rows, e, seqLen, stride);
      AddEntity(windows, own, rows, Entities(rows) - left, e, seqLen, stride);
      windows := windows + own;
      left := left - {e};
      assert Entities(rows) - left == Entities(rows) - (left + {e}) + {e};
    }
    assert Entities(rows) - left == Entities(rows);
    if shuffle {
      windows := Shuffle(windows);
    }
  }

  lemma AddEntity(windows: seq<WindowPair>, own: seq<WindowPair>, rows: seq<AugRow>, done: set<string>,
                  e: string, seqLen: nat, stride: nat)
    requires stride >= 1 && e !in done && AreGroupWindows(windows, rows, done, seqLen, stride)
    requires own == EntityWindows(rows, e, seqLen, stride)
    ensures AreGroupWindows(windows + own, rows, done + {e}, seqLen, stride)
  {
    hide EntityWindows;
    WindowsNameEntity(rows, e, seqLen, stride);
    forall w: WindowPair
      ensures multiset(windows + own)[w] ==
        if w.entityId in done + {e} then multiset(EntityWindows(rows, w.entityId, seqLen, stride))[w] else 0
    {
      assert multiset(windows + own) == multiset(windows) + multiset(own);
      if w.entityId != e {
        assert w !in multiset(own);
      }
    }
  }

  // ----- dealing row groups to workers -----

  /** Python's range(start, stop, step). */
  function Range(start: nat, stop: nat, step: nat): seq<nat>
    requires step >= 1
    decreases if start < stop then stop - start else 0
  {
    if start >= stop then [] else [start] + Range(start + step, stop, step)
  }

  lemma {:induction false} RangeSnoc(start: nat, stop: nat, step: nat)
    requires step >= 1
    ensures Range(start, stop + 1, step) ==
            if start <= stop && (stop - start) % step == 0 then Range(start, stop, step) + [stop]
            else Range(start, stop, step)
    decreases if start < stop then stop - start else 0
  {
    if start < stop {
      RangeSnoc(start + step, stop, step);
      ModStep(stop - start, step);
    }
  }

  lemma ModStep(d: nat, step: nat)
    requires step >= 1 && d > 0
    ensures d < step ==> d % step != 0
    ensures d >= step ==> (d - step) % step == d % step
  {
    if d >= step {
      assert d == (d / step) * step + d % step;
      assert d - step == (d / step - 1) * step + d % step;
      ModUnique(d - step, d / step - 1, d % step, step);
    }
  }

  lemma ModUnique(d: nat, q: nat, r: nat, step: nat)
    requires step >= 1 && d == q * step + r && r < step
    ensures d % step == r
  {
    var q', r' := d / step, d % step;
    assert d == q' * step + r';
    if q < q' {
      StepBelow(q, q', step);
    } else if q' < q {
      StepBelow(q', q, step);
    }
  }

  /** Everything yielded over a list of row groups, each yielding what `f` says. */
  function Yield<T>(f: nat -> multiset<T>, groups: seq<nat>): multiset<T> {
    if groups == [] then multiset{} else Yield(f, groups[..|groups|-1]) + f(groups[|groups|-1])
  }

  lemma YieldSnoc<T>(f: nat -> multiset<T>, groups: seq<nat>, g: nat)
    ensures Yield(f, groups + [g]) == Yield(f, groups) + f(g)
  {
    assert (groups + [g])[..|groups|] == groups;
  }

  function YieldOfWorkers<T>(f: nat -> multiset<T>, n: nat, workers: nat, w: nat): multiset<T>
    requires w <= workers && workers >= 1
  {
    if w == 0 then multiset{} else YieldOfWorkers(f, n, workers, w - 1) + Yield(f, Range(w - 1, n, workers))
  }

  lemma DealtTo(n: nat, workers: nat, id: nat)
    requires id < workers
    ensures id <= n && (n - id) % workers == 0 <==> n % workers == id
  {
    if id <= n {
      var q, r := (n - id) / workers, (n - id) % workers;
      assert n - id == q * workers + r;
      if r == 0 {
        ModUnique(n, q, id, workers);
      }
      if n % workers == id {
        assert n == (n / workers) * workers + id;
        ModUnique(n - id, n / workers, 0, workers);
      }
    } else {
      ModUnique(n, 0, n, workers);
    }
  }

  /** The owner of the next row group gets it, nobody else does. */
  lemma RangeOfWorker(id: nat, n: nat, workers: nat, owner: nat)
    requires id < workers && owner == n % workers
    ensures Range(id, n + 1, workers) == if owner == id then Range(id, n, workers) + [n] else Range(id, n, workers)
  {
    RangeSnoc(id, n, workers);
    DealtTo(n, workers, id);
  }

  lemma {:induction false} AddGroup<T>(f: nat -> multiset<T>, n: nat, workers: nat, w: nat, owner: nat)
    requires w <= workers && workers >= 1 && owner == n % workers
    ensures YieldOfWorkers(f, n + 1, workers, w) ==
            if owner < w then YieldOfWorkers(f, n, workers, w) + f(n) else YieldOfWorkers(f, n, workers, w)
  {
    hide Yield, Range;
    if w > 0 {
      AddGroup(f, n, workers, w - 1, owner);
      RangeOfWorker(w - 1, n, workers, owner);
      YieldSnoc(f, Range(w - 1, n, workers), n);
    }
  }

  /** For any number of workers the shards together yield exactly what one process yields:
      every row group is read once. */
  lemma {:induction false} ShardsPartition<T>(f: nat -> multiset<T>, n: nat, workers: nat)
    requires workers >= 1
    ensures YieldOfWorkers(f, n, workers, workers) == Yield(f, Range(0, n, 1))
  {
    hide YieldOfWorkers, Yield;
    if n == 0 {
      NoGroups(f, workers, workers);
      NothingYielded(f);
    } else {
      hide Range;
      ShardsPartition(f, n - 1, workers);
      AddGroup(f, n - 1, workers, workers, (n - 1) % workers);
      RangeSnoc(0, n - 1, 1);
      YieldSnoc(f, Range(0, n - 1, 1), n - 1);
    }
  }

  lemma NothingYielded<T>(f: nat -> multiset<T>)
    ensures Yield(f, []) == multiset{}
  {
  }

  lemma {:induction false} NoGroups<T>(f: nat -> multiset<T>, workers: nat, w: nat)
    requires w <= workers && workers >= 1
    ensures YieldOfWorkers(f, 0, workers, w) == multiset{}
  {
    if w > 0 {
      NoGroups(f, workers, w - 1);
    }
  }

  /** What a row group yields is determined up to order. */
  lemma GroupWindowsUnique(v: seq<WindowPair>, w: seq<WindowPair>, rows: seq<AugRow>, seqLen: nat, stride: nat)
    requires stride >= 1
    requires AreGroupWindows(v, rows, Entities(rows), seqLen, stride)
    requires AreGroupWindows(w, rows, Entities(rows), seqLen, stride)
    ensures multiset(v) == multiset(w)
  {
    hide EntityWindows;
    forall x: WindowPair ensures multiset(v)[x] == multiset(w)[x] {
    }
  }

  datatype WorkerInfo = WorkerInfo(id: nat, numWorkers: nat)

  /** The row groups a process reads. */
  function OwnGroups(n: nat, worker: Option<WorkerInfo>): seq<nat>
    requires worker.Some? ==> worker.value.numWorkers >= 1
  {
    if worker.None? then Range(0, n, 1) else Range(worker.value.id, n, worker.value.numWorkers)
  }

  /** Which row groups a process reads: a single process all of them, worker `id` of N those whose number leaves
      the remainder id; each once, in ascending order. */
  lemma {:induction false} OwnGroupsExact(n: nat, worker: Option<WorkerInfo>)
    requires worker.Some? ==> worker.value.id < worker.value.numWorkers
    ensures forall g: nat :: g in OwnGroups(n, worker) <==>
              g < n && (worker.Some? ==> g % worker.value.numWorkers == worker.value.id)
    ensures forall i, j :: 0 <= i < j < |OwnGroups(n, worker)| ==> OwnGroups(n, worker)[i] < OwnGroups(n, worker)[j]
    ensures worker.None? ==> |OwnGroups(n, worker)| == n
  {
    hide Range;
    var start := if worker.None? then 0 else worker.value.id;
    var step := if worker.None? then 1 else worker.value.numWorkers;
    RangeExact(start, n, step);
    forall g: nat
      ensures g in OwnGroups(n, worker) <==>
                g < n && (worker.Some? ==> g % worker.value.numWorkers == worker.value.id)
    {
      DealtTo(g, step, start);
    }
    if worker.None? {
      EveryGroupInTurn(n);
    }
  }

  lemma {:induction false} RangeExact(start: nat, stop: nat, step: nat)
    requires step >= 1
    ensures forall g: nat :: g in Range(start, stop, step) <==> start <= g < stop && (g - start) % step == 0
    ensures forall i, j :: 0 <= i < j < |Range(start, stop, step)| ==>
              Range(start, stop, step)[i] < Range(start, stop, step)[j]
  {
    if stop == 0 {
      assert Range(start, 0, step) == [];
    } else {
      hide Range;
      RangeExact(start, stop - 1, step);
      RangeSnoc(start, stop - 1, step);
      RangeBelow(start, stop - 1, step);
      var earlier, all := Range(start, stop - 1, step), Range(start, stop, step);
      forall i, j | 0 <= i < j < |all| ensures all[i] < all[j] {
        assert earlier[i] == all[i] && earlier[i] in earlier;
      }
    }
  }

  lemma {:induction false} RangeBelow(start: nat, stop: nat, step: nat)
    requires step >= 1
    ensures forall g :: g in Range(start, stop, step) ==> start <= g < stop
    decreases if start < stop then stop - start else 0
  {
    if start < stop {
      RangeBelow(start + step, stop, step);
    }
  }

  /** `windows` is what row group number g yields. */
  ghost predicate YieldedBy(windows: seq<WindowPair>, rowGroups: seq<seq<AugRow>>, g: nat, seqLen: nat, stride: nat)
    requires stride >= 1
  {
    g < |rowGroups| && AreGroupWindows(windows, rowGroups[g], Entities(rowGroups[g]), seqLen, stride)
  }

  /** `yielded` is what a process may yield in one pass: the windows of each of its row groups, in turn. */
  ghost predicate IsPass(yielded: seq<seq<WindowPair>>, rowGroups: seq<seq<AugRow>>, worker: Option<WorkerInfo>,
                         seqLen: nat, stride: nat)
    requires stride >= 1 && (worker.Some? ==> worker.value.numWorkers >= 1)
  {
    var own := OwnGroups(|rowGroups|, worker);
    |yielded| == |own| && forall i :: 0 <= i < |own| ==> YieldedBy(yielded[i], rowGroups, own[i], seqLen, stride)
  }

  /** One process's pass: what it yields for each of its row groups, in turn. */
  method Iterate(rowGroups: seq<seq<AugRow>>, worker: Option<WorkerInfo>, seqLen: nat, stride: nat, shuffle: bool)
    returns (yielded: seq<seq<WindowPair>>)
    requires stride >= 1 && (worker.Some? ==> worker.value.numWorkers >= 1)
    ensures IsPass(yielded, rowGroups, worker, seqLen, stride)
  {
    hide Range, YieldedBy, AreGroupWindows;
    var own := OwnGroups(|rowGroups|, worker);
    OwnBelow(|rowGroups|, worker);
    hide OwnGroups;
    yielded := [];
    for i := 0 to |own|
      invariant |yielded| == i
      invariant forall j :: 0 <= j < i ==> YieldedBy(yielded[j], rowGroups, own[j], seqLen, stride)
    {
      assert own[i] in own;
      var windows := ProcessRowGroup(rowGroups[own[i]], seqLen, stride, shuffle);
      assert YieldedBy(windows, rowGroups, own[i], seqLen, stride) by {
        YieldedByDef(windows, rowGroups, own[i], seqLen, stride);
      }
      yielded := yielded + [windows];
    }
  }

  lemma OwnBelow(n: nat, worker: Option<WorkerInfo>)
    requires worker.Some? ==> worker.value.numWorkers >= 1
    ensures forall g :: g in OwnGroups(n, worker) ==> g < n
  {
    if worker.None? {
      RangeBelow(0, n, 1);
    } else {
      RangeBelow(worker.value.id, n, worker.value.numWorkers);
    }
  }

  lemma YieldedByDef(windows: seq<WindowPair>, rowGroups: seq<seq<AugRow>>, g: nat, seqLen: nat, stride: nat)
    requires stride >= 1 && g < |rowGroups|
    requires AreGroupWindows(windows, rowGroups[g], Entities(rowGroups[g]), seqLen, stride)
    ensures YieldedBy(windows, rowGroups, g, seqLen, stride)
  {
  }

  // ----- what several processes yield together -----

  /** One epoch reads everything once: however many workers share the row groups, and however each
      shuffles, together they yield every window exactly as often as a single process does. */
  lemma {:induction false} EpochReadsEverythingOnce(shards: seq<seq<seq<WindowPair>>>, whole: seq<seq<WindowPair>>,
                                                    rowGroups: seq<seq<AugRow>>, seqLen: nat, stride: nat)
    requires stride >= 1 && |shards| >= 1
    requires forall w :: 0 <= w < |shards| ==>
               IsPass(shards[w], rowGroups, Some(WorkerInfo(w, |shards|)), seqLen, stride)
    requires IsPass(whole, rowGroups, None, seqLen, stride)
    ensures multiset(Flatten(Flatten(shards))) == multiset(Flatten(whole))
    ensures forall x: WindowPair :: multiset(Flatten(whole))[x] == Occurrences(rowGroups, x, seqLen, stride)
  {
    hide IsPass, Range, Yield, YieldOfWorkers, Flatten, YieldedBy;
    SingleProcessYieldsAll(whole, rowGroups, seqLen, stride);
    var n := |rowGroups|;
    var f := ByGroup(whole);
    PassYields(whole, whole, rowGroups, None, seqLen, stride);
    forall w | 0 <= w < |shards|
      ensures multiset(Flatten(shards[w])) == Yield(f, Range(w, n, |shards|))
    {
      PassYields(shards[w], whole, rowGroups, Some(WorkerInfo(w, |shards|)), seqLen, stride);
    }
    ShardsYield(f, shards, n, |shards|, |shards|);
    assert shards[..|shards|] == shards;
    ShardsPartition(f, n, |shards|);
  }

  /** How often a window occurs among the windows of its entity in all row groups of the file. */
  function Occurrences(rowGroups: seq<seq<AugRow>>, x: WindowPair, seqLen: nat, stride: nat): nat
    requires stride >= 1
  {
    if rowGroups == [] then 0
    else Occurrences(rowGroups[..|rowGroups|-1], x, seqLen, stride) +
         multiset(EntityWindows(rowGroups[|rowGroups|-1], x.entityId, seqLen, stride))[x]
  }

  /** A single process reads every row group, in turn, and yields all its windows; so over the file each
      window comes out exactly as often as it occurs. */
  lemma {:induction false} SingleProcessYieldsAll(whole: seq<seq<WindowPair>>, rowGroups: seq<seq<AugRow>>,
                                                  seqLen: nat, stride: nat)
    requires stride >= 1 && IsPass(whole, rowGroups, None, seqLen, stride)
    ensures |whole| == |rowGroups|
    ensures forall g :: 0 <= g < |rowGroups| ==>
              AreGroupWindows(whole[g], rowGroups[g], Entities(rowGroups[g]), seqLen, stride)
    ensures forall x: WindowPair :: multiset(Flatten(whole))[x] == Occurrences(rowGroups, x, seqLen, stride)
  {
    hide Range, EntityWindows, AreGroupWindows, Entities, Flatten, Occurrences;
    EveryGroupInTurn(|rowGroups|);
    forall g | 0 <= g < |rowGroups|
      ensures AreGroupWindows(whole[g], rowGroups[g], Entities(rowGroups[g]), seqLen, stride)
    {
      assert YieldedBy(whole[g], rowGroups, OwnGroups(|rowGroups|, None)[g], seqLen, stride);
    }
    forall x: WindowPair ensures multiset(Flatten(whole))[x] == Occurrences(rowGroups, x, seqLen, stride) {
      AllOccur(whole, rowGroups, x, seqLen, stride);
    }
  }

  lemma {:induction false} AllOccur(whole: seq<seq<WindowPair>>, rowGroups: seq<seq<AugRow>>, x: WindowPair,
                                    seqLen: nat, stride: nat)
    requires stride >= 1 && |whole| == |rowGroups|
    requires forall g :: 0 <= g < |rowGroups| ==>
               AreGroupWindows(whole[g], rowGroups[g], Entities(rowGroups[g]), seqLen, stride)
    ensures multiset(Flatten(whole))[x] == Occurrences(rowGroups, x, seqLen, stride)
  {
    hide EntityWindows, Entities, AreGroupWindows;
    if whole != [] {
      var n := |whole| - 1;
      AllOccur(whole[..n], rowGroups[..n], x, seqLen, stride);
      OccurInGroup(whole[n], rowGroups[n], x, seqLen, stride);
    }
  }

  lemma OccurInGroup(windows: seq<WindowPair>, rows: seq<AugRow>, x: WindowPair, seqLen: nat, stride: nat)
    requires stride >= 1 && AreGroupWindows(windows, rows, Entities(rows), seqLen, stride)
    ensures multiset(windows)[x] == multiset(EntityWindows(rows, x.entityId, seqLen, stride))[x]
  {
    hide EntityWindows;
    WindowsNameEntity(rows, x.entityId, seqLen, stride);
  }

  /** What a single process yielded for each row group. */
  ghost function ByGroup(whole: seq<seq<WindowPair>>): nat -> multiset<WindowPair> {
    (g: nat) => if g < |whole| then multiset(whole[g]) else multiset{}
  }

  /** Any pass yields, row group by row group, what the single process yielded for them. */
  lemma PassYields(yielded: seq<seq<WindowPair>>, whole: seq<seq<WindowPair>>, rowGroups: seq<seq<AugRow>>,
                   worker: Option<WorkerInfo>, seqLen: nat, stride: nat)
    requires stride >= 1 && (worker.Some? ==> worker.value.numWorkers >= 1)
    requires IsPass(yielded, rowGroups, worker, seqLen, stride) && IsPass(whole, rowGroups, None, seqLen, stride)
    ensures multiset(Flatten(yielded)) == Yield(ByGroup(whole), OwnGroups(|rowGroups|, worker))
  {
    hide Range, Yield, Flatten, AreGroupWindows;
    var own := OwnGroups(|rowGroups|, worker);
    EveryGroupInTurn(|rowGroups|);
    forall i | 0 <= i < |own| ensures multiset(yielded[i]) == ByGroup(whole)(own[i]) {
      var g := own[i];
      assert YieldedBy(yielded[i], rowGroups, g, seqLen, stride);
      assert YieldedBy(whole[g], rowGroups, g, seqLen, stride);
      GroupWindowsUnique(yielded[i], whole[g], rowGroups[g], seqLen, stride);
    }
    YieldsFlattened(yielded, ByGroup(whole), own);
  }

  lemma EveryGroupInTurn(n: nat)
    ensures |Range(0, n, 1)| == n && forall g :: 0 <= g < n ==> Range(0, n, 1)[g] == g
  {
    RangeByOne(0, n);
  }

  lemma {:induction false} RangeByOne(start: nat, stop: nat)
    requires start <= stop
    ensures |Range(start, stop, 1)| == stop - start
    ensures forall i :: 0 <= i < stop - start ==> Range(start, stop, 1)[i] == start + i
    decreases stop - start
  {
    if start < stop {
      RangeByOne(start + 1, stop);
    }
  }

  lemma {:induction false} YieldsFlattened<T>(yielded: seq<seq<T>>, f: nat -> multiset<T>, groups: seq<nat>)
    requires |yielded| == |groups| && forall i :: 0 <= i < |groups| ==> multiset(yielded[i]) == f(groups[i])
    ensures multiset(Flatten(yielded)) == Yield(f, groups)
  {
    if groups != [] {
      YieldsFlattened(yielded[..|yielded|-1], f, groups[..|groups|-1]);
    }
  }

  lemma {:induction false} ShardsYield<T>(f: nat -> multiset<T>, shards: seq<seq<seq<T>>>,
                                          n: nat, workers: nat, w: nat)
    requires w <= |shards| && w <= workers && workers >= 1
    requires forall v :: 0 <= v < w ==> multiset(Flatten(shards[v])) == Yield(f, Range(v, n, workers))
    ensures multiset(Flatten(Flatten(shards[..w]))) == YieldOfWorkers(f, n, workers, w)
  {
    hide Yield, Range;
    if w == 0 {
      assert Flatten(Flatten(shards[..0])) == [];
    } else {
      hide Flatten;
      ShardsYield(f, shards, n, workers, w - 1);
      assert shards[..w] == shards[..w-1] + [shards[w-1]];
      FlattenSnoc(shards[..w-1], shards[w-1]);
      FlattenConcat(Flatten(shards[..w-1]), shards[w-1]);
    }
  }
}
