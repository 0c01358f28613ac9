/** Any number of clients updating shared buckets through WATCH / GET / MULTI-SET-EXEC with
    bounded retries, as an interleaving state machine
    (phase0/baseline/rolling_baseline_store.py, update_bucket and get_bucket_state). */
module BaselineProtocol {
  import opened RollingBaseline
  import opened CommitLog
  import opened Wrappers

  const MAX_WATCH_RETRIES: nat := 100
  const BACKOFF_BASE_SECONDS := 0.001
  const BACKOFF_CAP_SECONDS := 0.05

  /** What Redis stores for a key; the version counts its SETs, which is all WATCH observes. */
  datatype Cell = Cell(state: BucketState, version: nat)

  /** Where an active call is inside its current attempt. `mark` and `got` are history
      variables: the number of commits in the whole system at WATCH and at GET. */
  datatype Stage =
    | ToWatch
    | ToGet(watched: nat, mark: nat)
    | ToExec(watched: nat, mark: nat, got: nat, current: BucketState)

  /** `start` is a history variable: the number of commits when the call began. */
  datatype Call = Call(key: string, value: real, attempt: nat, slept: real, start: nat)

  datatype Pc = Idle | Active(call: Call, stage: Stage)

  datatype Outcome =
    | Returned(call: Call, state: BucketState, position: nat)
    | Raised(call: Call, end: nat)

  datatype Client = Client(pc: Pc, outcomes: seq<Outcome>)

  datatype Observation = Observation(key: string, result: Option<BucketState>, position: nat)

  datatype System = System(
    db: map<string, Cell>,
    clients: seq<Client>,
    log: seq<Event>,           // commits, in order
    conflicts: seq<Event>,     // WATCH conflicts, in order
    answers: seq<Observation>)   // answers of get_bucket_state

  datatype Step =
    | Begin(client: nat, key: string, value: real)
    | Watch(client: nat)
    | Get(client: nat)
    | Exec(client: nat, pause: real)
    | ReadBucket(key: string)

  function Initial(n: nat): System {
    System(map[], seq(n, _ => Client(Idle, [])), [], [], [])
  }

  function Version(db: map<string, Cell>, key: string): nat {
    if key in db then db[key].version else 0
  }

  function Stored(db: map<string, Cell>, key: string): Option<BucketState> {
    if key in db then Some(db[key].state) else None
  }

  function OrEmpty(o: Option<BucketState>): BucketState {
    if o.Some? then o.value else EMPTY_BUCKET
  }

  function Pow2(n: nat): real {
    if n == 0 then 1.0 else 2.0 * Pow2(n - 1)
  }

  /** Upper end of the random pause after a conflict in attempt `attempt`. */
  function Backoff(attempt: nat): real {
    var exponential := BACKOFF_BASE_SECONDS * Pow2(attempt);
    if exponential < BACKOFF_CAP_SECONDS then exponential else BACKOFF_CAP_SECONDS
  }

  /** One atomic step; None when it is not enabled. */
  function Next(sizes: seq<int>, s: System, step: Step): Option<System> {
    match step
    case ReadBucket(key) =>
      Some(s.(answers := s.answers + [Observation(key, Stored(s.db, key), |s.log|)]))
    case Begin(c, key, value) =>
      if c < |s.clients| && s.clients[c].pc.Idle? then
        Some(WithPc(s, c, Active(Call(key, value, 0, 0.0, |s.log|), ToWatch)))
      else None
    case Watch(c) =>
      if c < |s.clients| && s.clients[c].pc.Active? && s.clients[c].pc.stage.ToWatch? then
        var call := s.clients[c].pc.call;
        Some(WithPc(s, c, Active(call, ToGet(Version(s.db, call.key), |s.log|))))
      else None
    case Get(c) =>
      if c < |s.clients| && s.clients[c].pc.Active? && s.clients[c].pc.stage.ToGet? then
        var Active(call, ToGet(watched, mark)) := s.clients[c].pc;
        var current := OrEmpty(Stored(s.db, call.key));
        Some(WithPc(s, c, Active(call, ToExec(watched, mark, |s.log|, current))))
      else None
    case Exec(c, pause) =>
      if c < |s.clients| && s.clients[c].pc.Active? && s.clients[c].pc.stage.ToExec? then
        var Active(call, stage) := s.clients[c].pc;
        if Version(s.db, call.key) == stage.watched then Some(Commit(sizes, s, c, call, stage.current))
        else if 0.0 <= pause <= Backoff(call.attempt) then Some(Conflict(s, c, call, pause))
        else None
      else None
  }

  function WithPc(s: System, c: nat, pc: Pc): System
    requires c < |s.clients|
  {
    s.(clients := s.clients[c := s.clients[c].(pc := pc)])
  }

  function Finish(s: System, c: nat, o: Outcome): System
    requires c < |s.clients|
  {
    s.(clients := s.clients[c := Client(Idle, s.clients[c].outcomes + [o])])
  }

  /** EXEC with an unchanged key: the new state is stored and the call returns it. */
  function Commit(sizes: seq<int>, s: System, c: nat, call: Call, current: BucketState): System
    requires c < |s.clients|
  {
    var state := ApplyUpdate(WindowSizeOf(sizes, c), current, call.value);
    var e := Event(c, |s.clients[c].outcomes|, call.key, call.value);
    Finish(s, c, Returned(call, state, |s.log|)).(
      db := s.db[call.key := Cell(state, Version(s.db, call.key) + 1)],
      log := s.log + [e])
  }

  /** EXEC with a changed key: sleep, then retry from WATCH or give up. */
  function Conflict(s: System, c: nat, call: Call, pause: real): System
    requires c < |s.clients|
  {
    var call' := call.(attempt := call.attempt + 1, slept := call.slept + pause);
    var e := Event(c, |s.clients[c].outcomes|, call.key, call.value);
    (if call'.attempt < MAX_WATCH_RETRIES then WithPc(s, c, Active(call', ToWatch))
     else Finish(s, c, Raised(call', |s.log|))).(conflicts := s.conflicts + [e])
  }

  /** A run is any sequence of enabled steps of any clients. */
  function Run(sizes: seq<int>, steps: seq<Step>): Option<System> {
    if steps == [] then Some(Initial(|sizes|))
    else
      var before := Run(sizes, steps[..|steps|-1]);
      if before.None? then None else Next(sizes, before.value, steps[|steps|-1])
  }

  // ----- invariant -----

  /** Largest total pause after `attempts` conflicts. */
  function SleepBound(attempts: nat): real {
    if attempts == 0 then 0.0 else SleepBound(attempts - 1) + Backoff(attempts - 1)
  }

  ghost predicate NoEventOf(log: seq<Event>, client: nat) {
    forall e :: e in log ==> e.client != client
  }

  ghost predicate CallOk(log: seq<Event>, c: nat, call: Call) {
    && call.start <= |log|
    && NoEventOf(log[call.start..], c)
    && |Select(log[call.start..], OnKey(call.key))| >= call.attempt
    && 0.0 <= call.slept <= SleepBound(call.attempt)
  }

  ghost predicate StageOk(sizes: seq<int>, log: seq<Event>, call: Call, stage: Stage) {
    stage.ToWatch? ||
    (&& call.start <= stage.mark <= |log|
     && stage.watched == |Select(log[..stage.mark], OnKey(call.key))|
     && |Select(log[call.start..stage.mark], OnKey(call.key))| >= call.attempt
     && (stage.ToExec? ==>
           && stage.mark <= stage.got <= |log|
           && stage.current == KeyState(log[..stage.got], sizes, call.key)))
  }

  ghost predicate PcOk(sizes: seq<int>, log: seq<Event>, c: nat, pc: Pc) {
    pc.Active? ==>
      && pc.call.attempt < MAX_WATCH_RETRIES
      && CallOk(log, c, pc.call)
      && StageOk(sizes, log, pc.call, pc.stage)
  }

  /** What the outcome of call `i` of client `c` says about the commit order. */
  ghost predicate OutcomeOk(sizes: seq<int>, log: seq<Event>, c: nat, i: nat, o: Outcome) {
    match o
    case Returned(call, state, position) =>
      && call.start <= position < |log|
      && log[position] == Event(c, i, call.key, call.value)
      && Select(log, OfCall(c, i)) == [log[position]]
      && state == KeyState(log[..position + 1], sizes, call.key)
      && call.attempt < MAX_WATCH_RETRIES
      && 0.0 <= call.slept <= SleepBound(call.attempt)
    case Raised(call, end) =>
      && end <= |log|
      && Select(log, OfCall(c, i)) == []
      && call.attempt == MAX_WATCH_RETRIES
      && CallOk(log[..end], c, call)
  }

  ghost predicate ClientOk(sizes: seq<int>, log: seq<Event>, c: nat, cl: Client) {
    && PcOk(sizes, log, c, cl.pc)
    && (forall i :: 0 <= i < |cl.outcomes| ==> OutcomeOk(sizes, log, c, i, cl.outcomes[i]))
    && (forall i :: i >= |cl.outcomes| ==> Select(log, OfCall(c, i)) == [])
  }

  /** The commits that pay for a client's conflicts on a key: once a WATCH is open,
      only those before it. */
  function Paying(log: seq<Event>, pc: Pc, key: string): seq<Event> {
    if pc.Active? && pc.call.key == key && !pc.stage.ToWatch? && pc.stage.mark <= |log|
    then log[..pc.stage.mark] else log
  }

  ghost predicate ConflictsPaid(s: System, c: nat)
    requires c < |s.clients|
  {
    forall key: string ::
      |Select(s.conflicts, OnKeyBy(key, c))| <=
      |Select(Paying(s.log, s.clients[c].pc, key), OnKeyByOthers(key, c))|
  }

  ghost predicate DbOk(sizes: seq<int>, db: map<string, Cell>, log: seq<Event>) {
    forall key: string ::
      && Version(db, key) == |Select(log, OnKey(key))|
      && (key in db <==> Select(log, OnKey(key)) != [])
      && OrEmpty(Stored(db, key)) == KeyState(log, sizes, key)
  }

  /** A read of `key` when the commit history was `prefix`. */
  function StateAfter(prefix: seq<Event>, sizes: seq<int>, key: string): Option<BucketState> {
    if Select(prefix, OnKey(key)) == [] then None else Some(KeyState(prefix, sizes, key))
  }

  ghost predicate ReadOk(sizes: seq<int>, log: seq<Event>, r: Observation) {
    r.position <= |log| && r.result == StateAfter(log[..r.position], sizes, r.key)
  }

  /** Every commit belongs to a call that returned at that very commit. */
  ghost predicate EventOk(s: System, j: nat)
    requires j < |s.log|
  {
    var e := s.log[j];
    && e.client < |s.clients|
    && e.call < |s.clients[e.client].outcomes|
    && s.clients[e.client].outcomes[e.call].Returned?
    && s.clients[e.client].outcomes[e.call].position == j
  }

  ghost predicate Inv(sizes: seq<int>, s: System) {
    && |s.clients| == |sizes|
    && DbOk(sizes, s.db, s.log)
    && (forall c :: 0 <= c < |s.clients| ==> ClientOk(sizes, s.log, c, s.clients[c]))
    && (forall c :: 0 <= c < |s.clients| ==> ConflictsPaid(s, c))
    && (forall r :: r in s.answers ==> ReadOk(sizes, s.log, r))
    && (forall j :: 0 <= j < |s.log| ==> EventOk(s, j))
    && ClientsBelow(s.conflicts, |sizes|)
  }
}
