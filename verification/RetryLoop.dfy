/** The update loop itself, run against a server that other clients write to between any two
    of its commands (phase0/baseline/rolling_baseline_store.py, update_bucket). */
module RetryLoop {
  import opened RollingBaseline
  import opened CommitLog
  import opened Wrappers
  import opened BaselineProtocol
  import opened BaselineSafety

  /** The shared server; `log` is the history of executed SETs. */
  class RedisServer {
    var db: map<string, Cell>
    ghost var log: seq<Event>
    const sizes: seq<int>

    ghost predicate Valid()
      reads this
    {
      DbOk(sizes, db, log)
    }

    constructor (sizes: seq<int>)
      ensures Valid() && this.sizes == sizes && log == [] && db == map[]
    {
      this.sizes := sizes;
      db := map[];
      log := [];
    }

    method Set(e: Event, state: BucketState)
      requires Valid()
      requires state == ApplyUpdate(WindowSizeOf(sizes, e.client), KeyState(log, sizes, e.key), e.value)
      modifies this
      ensures Valid() && log == old(log) + [e]
    {
      CommitDb(sizes, db, log, e, state);
      db := db[e.key := Cell(state, Version(db, e.key) + 1)];
      log := log + [e];
    }

    /** Anything the other clients may commit meanwhile. */
    method OthersCommit(me: nat)
      requires Valid()
      modifies this
      ensures Valid() && old(log) <= log && NoEventOf(log[|old(log)|..], me)
    {
      var n: nat :| true;
      for i := 0 to n
        invariant Valid() && old(log) <= log && NoEventOf(log[|old(log)|..], me)
      {
        var client: nat, call: nat, key: string, value: real := *, *, *, *;
        if client != me {
          ghost var recent := log[|old(log)|..];
          var current := OrEmpty(Stored(db, key));
          Set(Event(client, call, key, value),
              ApplyUpdate(WindowSizeOf(sizes, client), current, value));
          assert log[|old(log)|..] == recent + [Event(client, call, key, value)];
        }
      }
    }
  }

  /** From one history to a later one, `me` did nothing. */
  ghost predicate Quiet(a: seq<Event>, b: seq<Event>, me: nat) {
    a <= b && NoEventOf(b[|a|..], me)
  }

  lemma QuietJoin(a: seq<Event>, b: seq<Event>, c: seq<Event>, me: nat, key: string)
    requires Quiet(a, b, me) && Quiet(b, c, me)
    ensures Quiet(a, c, me)
    ensures |Select(c[|a|..], OnKey(key))| ==
            |Select(b[|a|..], OnKey(key))| + |Select(c[|b|..], OnKey(key))|
  {
    assert c[|a|..] == b[|a|..] + c[|b|..];
    SelectConcat(b[|a|..], c[|b|..], OnKey(key));
  }

  /** One pipeline block: WATCH, GET, MULTI, SET, EXEC. It commits with nothing of its own
      before that, or is aborted by a commit of somebody else to the key. */
  method Attempt(server: RedisServer, me: nat, call: nat, key: string, newValue: real)
    returns (r: Option<BucketState>)
    requires server.Valid()
    modifies server
    ensures server.Valid()
    ensures r.Some? ==>
              && |server.log| > |old(server.log)|
              && server.log[|server.log| - 1] == Event(me, call, key, newValue)
              && Quiet(old(server.log), server.log[..|server.log| - 1], me)
              && r.value == KeyState(server.log, server.sizes, key)
    ensures r.None? ==>
              && Quiet(old(server.log), server.log, me)
              && |Select(server.log[|old(server.log)|..], OnKey(key))| >= 1
  {
    hide Select, KeyState, ApplyUpdate;
    server.OthersCommit(me);
    var watched := Version(server.db, key);               // WATCH
    ghost var log1 := server.log;
    server.OthersCommit(me);
    var current := OrEmpty(Stored(server.db, key));       // GET
    ghost var log2 := server.log;
    server.OthersCommit(me);
    ghost var log3 := server.log;
    QuietJoin(log1, log2, log3, me, key);
    QuietJoin(old(server.log), log1, log3, me, key);
    assert log3[..|log1|] == log1 && log3[..|log2|] == log2;
    var state := ApplyUpdate(WindowSizeOf(server.sizes, me), current, newValue);
    if Version(server.db, key) == watched {               // EXEC succeeds
      UnchangedSince(log3, server.sizes, key, |log1|, |log2|);
      server.Set(Event(me, call, key, newValue), state);
      KeyStateSnoc(log3, Event(me, call, key, newValue), server.sizes, key);
      assert server.log[..|server.log| - 1] == log3;
      r := Some(state);
    } else {                                              // EXEC aborted
      SelectSplit(log3, |log1|, OnKey(key));
      r := None;
    }
  }

  function Total(pauses: seq<real>): real {
    if pauses == [] then 0.0 else Total(pauses[..|pauses|-1]) + pauses[|pauses|-1]
  }

  /** A call either commits exactly once, at a point between its start and its return, and returns
      the state at that point; or it fails after at least 100 commits to the key by others.
      `pauses` records one random pause per aborted attempt: it fails exactly at the 100th, and
      each pause is at most min(50, 2^attempt) milliseconds. */
  method UpdateBucket(server: RedisServer, me: nat, call: nat, key: string, newValue: real)
    returns (r: Option<BucketState>, slept: real, ghost pauses: seq<real>)
    requires server.Valid()
    modifies server
    ensures server.Valid()
    ensures r.Some? ==>
              && |server.log| > |old(server.log)|
              && server.log[|server.log| - 1] == Event(me, call, key, newValue)
              && Quiet(old(server.log), server.log[..|server.log| - 1], me)
              && r.value == KeyState(server.log, server.sizes, key)
    ensures r.None? ==>
              && Quiet(old(server.log), server.log, me)
              && |Select(server.log[|old(server.log)|..], OnKey(key))| >= 100
    ensures r.None? <==> |pauses| == 100
    ensures r.Some? <==> |pauses| < 100
    ensures slept == Total(pauses) && 0.0 <= slept <= 4.763
    ensures forall j :: 0 <= j < |pauses| ==> 0.0 <= pauses[j] <= Backoff(j)
  {
    hide Select, KeyState, SleepBound, Backoff, DbOk;
    slept, pauses := 0.0, [];
    SleepBoundZero();
    for attempt := 0 to MAX_WATCH_RETRIES
      invariant server.Valid() && Quiet(old(server.log), server.log, me)
      invariant |Select(server.log[|old(server.log)|..], OnKey(key))| >= attempt
      invariant 0.0 <= slept <= SleepBound(attempt)
      invariant |pauses| == attempt && slept == Total(pauses)
      invariant forall j :: 0 <= j < |pauses| ==> 0.0 <= pauses[j] <= Backoff(j)
    {
      ghost var before := server.log;
      r := Attempt(server, me, call, key, newValue);
      SleepBoundValue(attempt);
      if r.Some? {
        QuietJoin(old(server.log), before, server.log[..|server.log| - 1], me, key);
        return;
      }
      QuietJoin(old(server.log), before, server.log, me, key);
      BackoffBounds(attempt);
      var pause: real :| 0.0 <= pause <= Backoff(attempt);
      SleepBoundStep(attempt);
      slept := slept + pause;
      assert (pauses + [pause])[..attempt] == pauses;
      pauses := pauses + [pause];
    }
    SleepBoundValue(MAX_WATCH_RETRIES);
    r := None;
  }

  lemma SleepBoundZero()
    ensures SleepBound(0) == 0.0
  {
  }

  lemma SleepBoundStep(attempt: nat)
    ensures SleepBound(attempt + 1) == SleepBound(attempt) + Backoff(attempt)
  {
  }
}
