/** What holds in every reachable state of the update protocol, in every interleaving. */
module BaselineSafety {
  import opened RollingBaseline
  import opened CommitLog
  import opened Wrappers
  import opened BaselineProtocol

  lemma BackoffBounds(attempt: nat)
    ensures 0.0 <= Backoff(attempt) <= BACKOFF_CAP_SECONDS
  {
    Pow2Positive(attempt);
  }

  lemma {:induction false} Pow2Positive(n: nat)
    ensures Pow2(n) >= 1.0
  {
    if n != 0 {
      Pow2Positive(n - 1);
    }
  }

  // ----- extending the commit order -----

  lemma PrefixesKept(log: seq<Event>, e: Event, i: nat, j: nat)
    requires i <= j <= |log|
    ensures (log + [e])[..j] == log[..j] && (log + [e])[i..j] == log[i..j]
    ensures (log + [e])[i..] == log[i..] + [e]
  {
  }

  lemma PcOkExtend(sizes: seq<int>, log: seq<Event>, e: Event, c: nat, pc: Pc)
    requires PcOk(sizes, log, c, pc) && e.client != c
    ensures PcOk(sizes, log + [e], c, pc)
  {
    hide KeyState;
    if pc.Active? {
      var call := pc.call;
      PrefixesKept(log, e, call.start, |log|);
      SelectSnoc(log[call.start..], e, OnKey(call.key));
      if !pc.stage.ToWatch? {
        PrefixesKept(log, e, call.start, pc.stage.mark);
        if pc.stage.ToExec? {
          PrefixesKept(log, e, call.start, pc.stage.got);
        }
      }
    }
  }

  lemma OutcomeOkExtend(sizes: seq<int>, log: seq<Event>, e: Event, c: nat, i: nat, o: Outcome)
    requires OutcomeOk(sizes, log, c, i, o) && !Matches(OfCall(c, i), e)
    ensures OutcomeOk(sizes, log + [e], c, i, o)
  {
    hide KeyState;
    SelectSnoc(log, e, OfCall(c, i));
    match o
    case Returned(call, state, position) => PrefixesKept(log, e, 0, position + 1);
    case Raised(call, end) => PrefixesKept(log, e, 0, end);
  }

  lemma ClientOkExtend(sizes: seq<int>, log: seq<Event>, e: Event, c: nat, cl: Client)
    requires ClientOk(sizes, log, c, cl) && e.client != c
    ensures ClientOk(sizes, log + [e], c, cl)
  {
    hide OutcomeOk, PcOk;
    PcOkExtend(sizes, log, e, c, cl.pc);
    forall i | 0 <= i < |cl.outcomes| ensures OutcomeOk(sizes, log + [e], c, i, cl.outcomes[i]) {
      OutcomeOkExtend(sizes, log, e, c, i, cl.outcomes[i]);
    }
    forall i | i >= |cl.outcomes| ensures Select(log + [e], OfCall(c, i)) == [] {
      SelectSnoc(log, e, OfCall(c, i));
    }
  }

  /** If no commit on the key came after position i, the key's state is still the one at i. */
  lemma UnchangedSince(log: seq<Event>, sizes: seq<int>, key: string, i: nat, j: nat)
    requires i <= j <= |log|
    requires |Select(log[..i], OnKey(key))| == |Select(log, OnKey(key))|
    ensures KeyState(log[..j], sizes, key) == KeyState(log, sizes, key)
  {
    SelectSplit(log, j, OnKey(key));
    SelectSplit(log[..j], i, OnKey(key));
    assert log[..j][..i] == log[..i];
    assert Select(log, OnKey(key)) == Select(log[..j], OnKey(key));
  }

  // ----- the committing step -----

  /** What the call read is still the key's state when EXEC finds the version unchanged. */
  lemma ReadIsCurrent(sizes: seq<int>, s: System, c: nat, call: Call, stage: Stage)
    requires DbOk(sizes, s.db, s.log) && StageOk(sizes, s.log, call, stage) && stage.ToExec?
    requires Version(s.db, call.key) == stage.watched
    ensures stage.current == KeyState(s.log, sizes, call.key)
  {
    hide KeyState, Select;
    UnchangedSince(s.log, sizes, call.key, stage.mark, stage.got);
  }

  lemma CommitOutcome(sizes: seq<int>, log: seq<Event>, c: nat, i: nat, call: Call, current: BucketState)
    requires CallOk(log, c, call) && call.attempt < MAX_WATCH_RETRIES
    requires Select(log, OfCall(c, i)) == [] && current == KeyState(log, sizes, call.key)
    ensures OutcomeOk(sizes, log + [Event(c, i, call.key, call.value)], c, i,
                      Returned(call, ApplyUpdate(WindowSizeOf(sizes, c), current, call.value), |log|))
  {
    hide KeyState, ApplyUpdate, Select;
    var e := Event(c, i, call.key, call.value);
    KeyStateSnoc(log, e, sizes, call.key);
    assert (log + [e])[..|log| + 1] == log + [e];
    SelectSnoc(log, e, OfCall(c, i));
  }

  lemma CommitOwnClient(sizes: seq<int>, s: System, c: nat, call: Call, stage: Stage)
    requires c < |s.clients| && Inv(sizes, s)
    requires s.clients[c].pc == Active(call, stage) && stage.ToExec?
    requires Version(s.db, call.key) == stage.watched
    ensures stage.current == KeyState(s.log, sizes, call.key)
    ensures var s' := Commit(sizes, s, c, call, stage.current);
            ClientOk(sizes, s'.log, c, s'.clients[c])
  {
    hide KeyState, ApplyUpdate, Select, DbOk, StageOk, CallOk, OutcomeOk;
    var log, cl := s.log, s.clients[c];
    assert ClientOk(sizes, log, c, cl);
    var i := |cl.outcomes|;
    var e := Event(c, i, call.key, call.value);
    ReadIsCurrent(sizes, s, c, call, stage);
    CommitOutcome(sizes, log, c, i, call, stage.current);
    forall k | 0 <= k < i ensures OutcomeOk(sizes, log + [e], c, k, cl.outcomes[k]) {
      OutcomeOkExtend(sizes, log, e, c, k, cl.outcomes[k]);
    }
    forall k | k > i ensures Select(log + [e], OfCall(c, k)) == [] {
      SelectSnoc(log, e, OfCall(c, k));
    }
  }

  lemma CommitDb(sizes: seq<int>, db: map<string, Cell>, log: seq<Event>, e: Event, state: BucketState)
    requires DbOk(sizes, db, log)
    requires state == ApplyUpdate(WindowSizeOf(sizes, e.client), KeyState(log, sizes, e.key), e.value)
    ensures DbOk(sizes, db[e.key := Cell(state, Version(db, e.key) + 1)], log + [e])
  {
    hide KeyState, ApplyUpdate, Select;
    var db' := db[e.key := Cell(state, Version(db, e.key) + 1)];
    forall key: string
      ensures Version(db', key) == |Select(log + [e], OnKey(key))|
      ensures key in db' <==> Select(log + [e], OnKey(key)) != []
      ensures OrEmpty(Stored(db', key)) == KeyState(log + [e], sizes, key)
    {
      SelectSnoc(log, e, OnKey(key));
      KeyStateSnoc(log, e, sizes, key);
      assert Version(db, key) == |Select(log, OnKey(key))|;
    }
  }

  lemma PayingGrows(log: seq<Event>, e: Event, pc: Pc, key: string, c: nat)
    ensures |Select(Paying(log, pc, key), OnKeyByOthers(key, c))| <=
            |Select(Paying(log + [e], pc, key), OnKeyByOthers(key, c))|
  {
    SelectSnoc(log, e, OnKeyByOthers(key, c));
    if pc.Active? && pc.call.key == key && !pc.stage.ToWatch? && pc.stage.mark <= |log| {
      PrefixesKept(log, e, 0, pc.stage.mark);
    } else if pc.Active? && !pc.stage.ToWatch? && pc.stage.mark == |log| + 1 {
      assert (log + [e])[..pc.stage.mark] == log + [e];
    }
  }

  /** A finished or restarted call pays with the whole commit order, which is at least as much. */
  lemma PayingAll(log: seq<Event>, pc: Pc, key: string, c: nat)
    ensures |Select(Paying(log, pc, key), OnKeyByOthers(key, c))| <=
            |Select(log, OnKeyByOthers(key, c))|
  {
    if pc.Active? && pc.call.key == key && !pc.stage.ToWatch? && pc.stage.mark <= |log| {
      SelectSplit(log, pc.stage.mark, OnKeyByOthers(key, c));
    }
  }

  lemma CommitKeepsInv(sizes: seq<int>, s: System, c: nat, call: Call, stage: Stage)
    requires c < |s.clients| && Inv(sizes, s)
    requires s.clients[c].pc == Active(call, stage) && stage.ToExec?
    requires Version(s.db, call.key) == stage.watched
    ensures Inv(sizes, Commit(sizes, s, c, call, stage.current))
  {
    hide KeyState, ApplyUpdate, ClientOk, DbOk, ReadOk;
    var s' := Commit(sizes, s, c, call, stage.current);
    CommitOwnClient(sizes, s, c, call, stage);
    var e := s'.log[|s.log|];
    CommitDb(sizes, s.db, s.log, e, s'.clients[c].outcomes[|s.clients[c].outcomes|].state);
    forall d | 0 <= d < |s'.clients| ensures ClientOk(sizes, s'.log, d, s'.clients[d]) {
      if d != c { ClientOkExtend(sizes, s.log, e, d, s.clients[d]); }
    }
    forall d | 0 <= d < |s'.clients| ensures ConflictsPaid(s', d) {
      forall key: string
        ensures |Select(s'.conflicts, OnKeyBy(key, d))| <=
                |Select(Paying(s'.log, s'.clients[d].pc, key), OnKeyByOthers(key, d))|
      {
        assert ConflictsPaid(s, d);
        PayingGrows(s.log, e, s.clients[d].pc, key, d);
        PayingAll(s'.log, s.clients[d].pc, key, d);
      }
    }
    forall r | r in s'.answers ensures ReadOk(sizes, s'.log, r) {
      ReadOkExtend(sizes, s.log, e, r);
    }
    forall j | 0 <= j < |s'.log| ensures EventOk(s', j) {
      if j < |s.log| { assert EventOk(s, j); assert s'.log[j] == s.log[j]; }
    }
  }

  lemma ReadOkExtend(sizes: seq<int>, log: seq<Event>, e: Event, r: Observation)
    requires ReadOk(sizes, log, r)
    ensures ReadOk(sizes, log + [e], r)
  {
    hide KeyState;
    PrefixesKept(log, e, 0, r.position);
  }

  // ----- the conflicting step -----

  /** A failed EXEC means somebody else committed to the key since this attempt's WATCH. */
  lemma {:induction false} ConflictIsPaid(sizes: seq<int>, s: System, c: nat, call: Call, stage: Stage)
    requires c < |s.clients| && DbOk(sizes, s.db, s.log)
    requires CallOk(s.log, c, call) && StageOk(sizes, s.log, call, stage) && stage.ToExec?
    requires Version(s.db, call.key) != stage.watched
    ensures |Select(s.log[stage.mark..], OnKey(call.key))| >= 1
    ensures |Select(s.log[call.start..], OnKey(call.key))| >= call.attempt + 1
    ensures |Select(s.log, OnKeyByOthers(call.key, c))| >=
            |Select(s.log[..stage.mark], OnKeyByOthers(call.key, c))| + 1
  {
    hide KeyState, Select;
    var log, key := s.log, call.key;
    SelectSplit(log, stage.mark, OnKey(key));
    assert log[call.start..][..stage.mark - call.start] == log[call.start..stage.mark];
    assert log[call.start..][stage.mark - call.start..] == log[stage.mark..];
    SelectSplit(log[call.start..], stage.mark - call.start, OnKey(key));
    SelectSplit(log, stage.mark, OnKeyByOthers(key, c));
    OwnAndOthers(log[stage.mark..], key, c);
    forall e | e in log[stage.mark..] ensures !Matches(OnKeyBy(key, c), e) {
      assert e in log[call.start..];
    }
    SelectNone(log[stage.mark..], OnKeyBy(key, c));
  }

  lemma ConflictOwnClient(sizes: seq<int>, s: System, c: nat, call: Call, stage: Stage, pause: real)
    requires c < |s.clients| && DbOk(sizes, s.db, s.log) && ClientOk(sizes, s.log, c, s.clients[c])
    requires s.clients[c].pc == Active(call, stage) && stage.ToExec?
    requires Version(s.db, call.key) != stage.watched && 0.0 <= pause <= Backoff(call.attempt)
    ensures ClientOk(sizes, s.log, c, Conflict(s, c, call, pause).clients[c])
  {
    hide KeyState, Backoff, Select;
    ConflictIsPaid(sizes, s, c, call, stage);
    assert s.log[..|s.log|] == s.log;
  }

  lemma ConflictKeepsInv(sizes: seq<int>, s: System, c: nat, call: Call, stage: Stage, pause: real)
    requires c < |s.clients| && Inv(sizes, s)
    requires s.clients[c].pc == Active(call, stage) && stage.ToExec?
    requires Version(s.db, call.key) != stage.watched && 0.0 <= pause <= Backoff(call.attempt)
    ensures Inv(sizes, Conflict(s, c, call, pause))
  {
    hide KeyState, Backoff, ReadOk, Select, DbOk;
    var s' := Conflict(s, c, call, pause);
    assert ClientOk(sizes, s.log, c, s.clients[c]);
    ConflictIsPaid(sizes, s, c, call, stage);
    ConflictOwnClient(sizes, s, c, call, stage, pause);
    hide ClientOk;
    forall d | 0 <= d < |s'.clients| ensures ConflictsPaid(s', d) {
      assert ConflictsPaid(s, d);
      forall key: string
        ensures |Select(s'.conflicts, OnKeyBy(key, d))| <=
                |Select(Paying(s'.log, s'.clients[d].pc, key), OnKeyByOthers(key, d))|
      {
        SelectSnoc(s.conflicts, s'.conflicts[|s.conflicts|], OnKeyBy(key, d));
        PayingAll(s.log, s.clients[d].pc, key, d);
      }
    }
    forall j | 0 <= j < |s.log| ensures EventOk(s', j) { assert EventOk(s, j); }
  }

  // ----- the steps that only move one client, and runs -----

  lemma LocalStepKeepsInv(sizes: seq<int>, s: System, c: nat, pc: Pc)
    requires c < |s.clients| && Inv(sizes, s)
    requires PcOk(sizes, s.log, c, pc)
    requires forall key :: Paying(s.log, pc, key) == s.log
                           || Paying(s.log, pc, key) == Paying(s.log, s.clients[c].pc, key)
    ensures Inv(sizes, WithPc(s, c, pc))
  {
    hide KeyState, ReadOk, Select, PcOk, OutcomeOk;
    var s' := WithPc(s, c, pc);
    assert ClientOk(sizes, s.log, c, s.clients[c]);
    forall d | 0 <= d < |s'.clients| ensures ConflictsPaid(s', d) {
      assert ConflictsPaid(s, d);
      forall key: string
        ensures |Select(s'.conflicts, OnKeyBy(key, d))| <=
                |Select(Paying(s'.log, s'.clients[d].pc, key), OnKeyByOthers(key, d))|
      {
        PayingAll(s.log, s.clients[d].pc, key, d);
      }
    }
    forall j | 0 <= j < |s.log| ensures EventOk(s', j) { assert EventOk(s, j); }
  }

  /** Every enabled step keeps the invariant. */
  lemma {:induction false} NextKeepsInv(sizes: seq<int>, s: System, step: Step)
    requires Inv(sizes, s) && Next(sizes, s, step).Some?
    ensures Inv(sizes, Next(sizes, s, step).value)
  {
    hide KeyState, Select, Commit, Conflict, Backoff, ConflictsPaid;
    match step
    case ReadBucket(key) =>
      assert s.log[..|s.log|] == s.log;
      var s' := Next(sizes, s, step).value;
      forall d | 0 <= d < |s'.clients| ensures ConflictsPaid(s', d) { SameConflictsPaid(s, s', d); }
      forall j | 0 <= j < |s.log| ensures EventOk(s', j) { assert EventOk(s, j); }
    case Begin(c, key, value) =>
      assert Select(s.log[|s.log|..], OnKey(key)) == [] by { SelectNone(s.log[|s.log|..], OnKey(key)); }
      LocalStepKeepsInv(sizes, s, c, Active(Call(key, value, 0, 0.0, |s.log|), ToWatch));
    case Watch(c) =>
      assert ClientOk(sizes, s.log, c, s.clients[c]);
      var call := s.clients[c].pc.call;
      assert s.log[..|s.log|] == s.log;
      assert s.log[call.start..|s.log|] == s.log[call.start..];
      LocalStepKeepsInv(sizes, s, c, Active(call, ToGet(Version(s.db, call.key), |s.log|)));
    case Get(c) =>
      assert ClientOk(sizes, s.log, c, s.clients[c]);
      var Active(call, ToGet(watched, mark)) := s.clients[c].pc;
      var current := OrEmpty(Stored(s.db, call.key));
      assert s.log[..|s.log|] == s.log;
      LocalStepKeepsInv(sizes, s, c, Active(call, ToExec(watched, mark, |s.log|, current)));
    case Exec(c, pause) =>
      var Active(call, stage) := s.clients[c].pc;
      if Version(s.db, call.key) == stage.watched {
        CommitKeepsInv(sizes, s, c, call, stage);
      } else {
        ConflictKeepsInv(sizes, s, c, call, stage, pause);
      }
  }

  lemma SameConflictsPaid(s: System, s': System, c: nat)
    requires c < |s.clients| && ConflictsPaid(s, c)
    requires s'.clients == s.clients && s'.log == s.log && s'.conflicts == s.conflicts
    ensures ConflictsPaid(s', c)
  {
  }

  lemma InitialInv(sizes: seq<int>)
    ensures Inv(sizes, Initial(|sizes|))
  {
  }

  /** Every state of every run satisfies the invariant. */
  lemma {:induction false} RunKeepsInv(sizes: seq<int>, steps: seq<Step>)
    requires Run(sizes, steps).Some?
    ensures Inv(sizes, Run(sizes, steps).value)
  {
    hide Inv, Next;
    if steps == [] {
      InitialInv(sizes);
    } else {
      RunKeepsInv(sizes, steps[..|steps|-1]);
      NextKeepsInv(sizes, Run(sizes, steps[..|steps|-1]).value, steps[|steps|-1]);
    }
  }

  // ----- main results, for every run of any number of clients -----

  /** No lost and no duplicated updates: what is stored is the fold of the update function over
      the committed values in commit order, a call that returned is in that order exactly once
      (between its start and its return, and it returned the state at that point), a call that
      raised or is still running is not in it, and nothing else is. */
  lemma {:induction false} NoLostOrDuplicatedUpdates(sizes: seq<int>, steps: seq<Step>, s: System)
    requires Run(sizes, steps) == Some(s)
    ensures |s.clients| == |sizes|
    ensures forall key: string :: Stored(s.db, key) == StateAfter(s.log, sizes, key)
    ensures forall c, i :: 0 <= c < |sizes| && 0 <= i < |s.clients[c].outcomes| ==>
              var o := s.clients[c].outcomes[i];
              if o.Returned? then
                && o.call.start <= o.position < |s.log|
                && s.log[o.position] == Event(c, i, o.call.key, o.call.value)
                && Select(s.log, OfCall(c, i)) == [s.log[o.position]]
                && o.state == KeyState(s.log[..o.position + 1], sizes, o.call.key)
              else
                Select(s.log, OfCall(c, i)) == []
    ensures forall c, i :: 0 <= c < |sizes| && i >= |s.clients[c].outcomes| ==>
              Select(s.log, OfCall(c, i)) == []
    ensures forall j :: 0 <= j < |s.log| ==> EventOk(s, j)
  {
    hide KeyState, Select, Run;
    RunKeepsInv(sizes, steps);
    forall c, i | 0 <= c < |sizes| && 0 <= i < |s.clients[c].outcomes|
      ensures OutcomeOk(sizes, s.log, c, i, s.clients[c].outcomes[i])
    {
      assert ClientOk(sizes, s.log, c, s.clients[c]);
    }
    forall c, i | 0 <= c < |sizes| && i >= |s.clients[c].outcomes|
      ensures Select(s.log, OfCall(c, i)) == []
    {
      assert ClientOk(sizes, s.log, c, s.clients[c]);
    }
  }

  /** Every answer of get_bucket_state is the state after a prefix of the commit order. */
  lemma {:induction false} ReadsSeePrefixes(sizes: seq<int>, steps: seq<Step>, s: System, r: Observation)
    requires Run(sizes, steps) == Some(s) && r in s.answers
    ensures r.position <= |s.log|
    ensures r.result == StateAfter(s.log[..r.position], sizes, r.key)
  {
    hide KeyState, Select, Run;
    RunKeepsInv(sizes, steps);
  }

  /** Reads never go back: a later answer reflects at least the commits of an earlier one. */
  lemma {:induction false} ReadsNeverGoBack(sizes: seq<int>, steps: seq<Step>, s: System)
    requires Run(sizes, steps) == Some(s)
    ensures forall r :: r in s.answers ==> r.position <= |s.log|
    ensures forall i, j :: 0 <= i < j < |s.answers| ==> s.answers[i].position <= s.answers[j].position
  {
    hide Next;
    if steps != [] {
      var before := Run(sizes, steps[..|steps|-1]).value;
      ReadsNeverGoBack(sizes, steps[..|steps|-1], before);
      StepGrows(sizes, before, steps[|steps|-1], s);
    }
  }

  lemma StepGrows(sizes: seq<int>, s: System, step: Step, s': System)
    requires Next(sizes, s, step) == Some(s')
    ensures |s.log| <= |s'.log|
    ensures s'.answers == s.answers
            || (s'.log == s.log && |s'.answers| == |s.answers| + 1 && s'.answers[..|s.answers|] == s.answers
                && s'.answers[|s.answers|].position == |s.log|)
  {
    hide ApplyUpdate, Backoff;
  }

  /** When all clients use one window size, a stored bucket is exactly the from-scratch
      statistics of the last min(n, size) values committed to it. */
  lemma {:induction false} StoredWindowIsExact(sizes: seq<int>, steps: seq<Step>, s: System, key: string,
                                               windowSize: int)
    requires Run(sizes, steps) == Some(s) && key in s.db
    requires forall c :: 0 <= c < |sizes| ==> sizes[c] == windowSize
    ensures s.db[key].state ==
            StateOf(LastN(ValuesOf(Select(s.log, OnKey(key))), Capacity(windowSize)))
  {
    hide Select, Run, StateOf, Replay, DbOk;
    RunKeepsInv(sizes, steps);
    assert Stored(s.db, key) == StateAfter(s.log, sizes, key) by { NoLostOrDuplicatedUpdates(sizes, steps, s); }
    var committed := Select(s.log, OnKey(key));
    var ws := AsWrites(committed, sizes);
    forall i | 0 <= i < |ws| ensures ws[i].windowSize == windowSize {
      SelectMembers(s.log, OnKey(key), committed[i]);
      var j :| 0 <= j < |s.log| && s.log[j] == committed[i];
      assert EventOk(s, j);
    }
    SlidingWindowExact(ws, windowSize);
    assert Values(ws) == ValuesOf(committed);
  }

  lemma {:induction false} SelectMembers(log: seq<Event>, f: Filter, e: Event)
    requires e in Select(log, f)
    ensures e in log && Matches(f, e)
  {
    var init := log[..|log|-1];
    if e in Select(init, f) {
      SelectMembers(init, f, e);
    }
  }

  /** The retry error is only ever raised under contention: at least 100 commits to that key,
      all by other clients, happened during the call. */
  lemma {:induction false} RetryErrorNeedsContention(sizes: seq<int>, steps: seq<Step>, s: System, c: nat, i: nat)
    requires Run(sizes, steps) == Some(s)
    requires c < |sizes| && c < |s.clients| && i < |s.clients[c].outcomes| && s.clients[c].outcomes[i].Raised?
    ensures var o := s.clients[c].outcomes[i];
            && o.call.start <= o.end <= |s.log|
            && |Select(s.log[o.call.start..o.end], OnKey(o.call.key))| >= 100
            && Select(s.log[o.call.start..o.end], OnKey(o.call.key)) ==
               Select(s.log[o.call.start..o.end], OnKeyByOthers(o.call.key, c))
  {
    hide KeyState, Select, Run;
    RunKeepsInv(sizes, steps);
    assert ClientOk(sizes, s.log, c, s.clients[c]);
    var o := s.clients[c].outcomes[i];
    assert OutcomeOk(sizes, s.log, c, i, o);
    assert s.log[..o.end][o.call.start..] == s.log[o.call.start..o.end];
    OnlyOthers(s.log[o.call.start..o.end], o.call.key, c);
  }

  lemma {:induction false} OnlyOthers(log: seq<Event>, key: string, c: nat)
    requires NoEventOf(log, c)
    ensures Select(log, OnKey(key)) == Select(log, OnKeyByOthers(key, c))
  {
    if log != [] {
      assert log[|log|-1] in log;
      OnlyOthers(log[..|log|-1], key, c);
    }
  }

  /** System-wide progress: with n clients, the conflicts on a key are at most
      n - 1 times the commits on it. */
  lemma {:induction false} ConflictsBoundedByCommits(sizes: seq<int>, steps: seq<Step>, s: System, key: string)
    requires Run(sizes, steps) == Some(s)
    ensures |Select(s.conflicts, OnKey(key))| <=
            (if |sizes| == 0 then 0 else |sizes| - 1) * |Select(s.log, OnKey(key))|
  {
    hide KeyState, Select, Run, DbOk, ClientOk, ReadOk;
    RunKeepsInv(sizes, steps);
    var n := |sizes|;
    TotalByIsAll(s.conflicts, key, n);
    ConflictsBelowOthers(s, key, n);
    forall e | e in s.log ensures e.client < n {
      var j :| 0 <= j < |s.log| && s.log[j] == e;
      assert EventOk(s, j);
    }
    TotalByIsAll(s.log, key, n);
    TotalByOthersSum(s.log, key, n);
    if n != 0 {
      var k := |Select(s.log, OnKey(key))|;
      assert n * k == (n - 1) * k + k;
    }
  }

  lemma {:induction false} ConflictsBelowOthers(s: System, key: string, n: nat)
    requires n <= |s.clients|
    requires forall c :: 0 <= c < |s.clients| ==> ConflictsPaid(s, c)
    ensures TotalBy(s.conflicts, key, n) <= TotalByOthers(s.log, key, n)
  {
    if n != 0 {
      ConflictsBelowOthers(s, key, n - 1);
      assert ConflictsPaid(s, n - 1);
      PayingAll(s.log, s.clients[n - 1].pc, key, n - 1);
    }
  }

  /** The pauses a call asks for never add up to more than 4.763 seconds. */
  lemma {:induction false} SleepIsBounded(sizes: seq<int>, steps: seq<Step>, s: System, c: nat)
    requires Run(sizes, steps) == Some(s) && c < |sizes| && c < |s.clients|
    ensures s.clients[c].pc.Active? ==> 0.0 <= s.clients[c].pc.call.slept <= 4.763
    ensures forall i :: 0 <= i < |s.clients[c].outcomes| ==>
              0.0 <= s.clients[c].outcomes[i].call.slept <= 4.763
  {
    hide KeyState, Select, Run, SleepBound;
    RunKeepsInv(sizes, steps);
    assert ClientOk(sizes, s.log, c, s.clients[c]);
    if s.clients[c].pc.Active? {
      SleepBoundValue(s.clients[c].pc.call.attempt);
    }
    forall i | 0 <= i < |s.clients[c].outcomes|
      ensures 0.0 <= s.clients[c].outcomes[i].call.slept <= 4.763
    {
      assert OutcomeOk(sizes, s.log, c, i, s.clients[c].outcomes[i]);
      SleepBoundValue(s.clients[c].outcomes[i].call.attempt);
    }
  }

  /** The pause bounds: 1, 2, 4, 8, 16 and 32 milliseconds, then 50 each time. */
  lemma {:induction false} BackoffExact(attempt: nat)
    ensures attempt == 0 ==> Backoff(attempt) == 0.001
    ensures 1 <= attempt <= 5 ==> Backoff(attempt) == 2.0 * Backoff(attempt - 1)
    ensures attempt >= 6 ==> Backoff(attempt) == 0.05
  {
    assert Pow2(0) == 1.0 && Pow2(1) == 2.0 && Pow2(2) == 4.0;
    assert Pow2(3) == 8.0 && Pow2(4) == 16.0 && Pow2(5) == 32.0;
    if attempt >= 6 {
      PowAtLeast64(attempt);
    }
  }

  lemma {:induction false} PowAtLeast64(n: nat)
    requires n >= 6
    ensures Pow2(n) >= 64.0
  {
    if n == 6 {
      assert Pow2(3) == 8.0;
    } else {
      PowAtLeast64(n - 1);
    }
  }

  /** 1 + 2 + 4 + 8 + 16 + 32 milliseconds, then 50 milliseconds each: 4.763 seconds after 100. */
  lemma {:induction false} SleepBoundValue(attempts: nat)
    ensures attempts >= 6 ==> SleepBound(attempts) == 0.063 + (attempts - 6) as real * 0.05
    ensures attempts <= 100 ==> SleepBound(attempts) <= 4.763
    ensures SleepBound(100) == 4.763
  {
    hide Backoff, SleepBound;
    SleepBoundFrom6(attempts);
    SleepBoundFrom6(100);
    if attempts < 6 {
      SleepBoundSmall(attempts);
    }
  }

  lemma {:induction false} SleepBoundFrom6(attempts: nat)
    ensures attempts >= 6 ==> SleepBound(attempts) == 0.063 + (attempts - 6) as real * 0.05
  {
    hide Backoff;
    if attempts > 6 {
      SleepBoundFrom6(attempts - 1);
      BackoffExact(attempts - 1);
    } else if attempts == 6 {
      SleepBoundSix();
    }
  }

  lemma SleepBoundSix()
    ensures SleepBound(6) == 0.063
  {
    hide Backoff;
    BackoffExact(0);
    BackoffExact(1);
    BackoffExact(2);
    BackoffExact(3);
    BackoffExact(4);
    BackoffExact(5);
    assert SleepBound(2) == 0.003;
    assert SleepBound(4) == 0.015;
  }

  lemma {:induction false} SleepBoundSmall(attempts: nat)
    requires attempts <= 6
    ensures SleepBound(attempts) <= attempts as real * 0.05
  {
    if attempts > 0 {
      SleepBoundSmall(attempts - 1);
      BackoffBounds(attempts - 1);
    }
  }
}
