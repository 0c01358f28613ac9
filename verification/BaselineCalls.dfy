/** What the steps of a run say about each call and each read, without looking at the fields the
    protocol keeps for itself: how often a call was aborted, how long it slept, when it raises. */
module BaselineCalls {
  import opened RollingBaseline
  import opened CommitLog
  import opened Wrappers
  import opened BaselineProtocol
  import opened BaselineSafety

  /** A requested call, with the number of commits in the system at that moment. */
  datatype Begun = Begun(key: string, value: real, start: nat)

  function CallsDone(s: System, c: nat): nat {
    if c < |s.clients| then |s.clients[c].outcomes| else 0
  }

  lemma RunSplit(sizes: seq<int>, steps: seq<Step>)
    requires Run(sizes, steps).Some? && steps != []
    ensures var init := steps[..|steps|-1];
            Run(sizes, init).Some? && Next(sizes, Run(sizes, init).value, steps[|steps|-1]) == Run(sizes, steps)
  {
  }

  /** The calls client c requested, in order. */
  function Begins(sizes: seq<int>, steps: seq<Step>, c: nat): seq<Begun>
    requires Run(sizes, steps).Some?
  {
    if steps == [] then []
    else
      var init, last := steps[..|steps|-1], steps[|steps|-1];
      var earlier := Begins(sizes, init, c);
      if last.Begin? && last.client == c
      then earlier + [Begun(last.key, last.value, |Run(sizes, init).value.log|)] else earlier
  }

  /** The last step is an EXEC of client c, in its i-th call, that committed nothing. */
  predicate EndsInAbort(sizes: seq<int>, steps: seq<Step>, c: nat, i: nat)
    requires Run(sizes, steps).Some? && steps != []
  {
    var init, last := steps[..|steps|-1], steps[|steps|-1];
    && last.Exec? && last.client == c
    && CallsDone(Run(sizes, init).value, c) == i
    && Run(sizes, steps).value.log == Run(sizes, init).value.log
  }

  /** How many EXECs of client c's i-th call were aborted. */
  function Aborts(sizes: seq<int>, steps: seq<Step>, c: nat, i: nat): nat
    requires Run(sizes, steps).Some?
  {
    if steps == [] then 0
    else Aborts(sizes, steps[..|steps|-1], c, i) + if EndsInAbort(sizes, steps, c, i) then 1 else 0
  }

  /** How long those aborts made the call sleep, all together. */
  function Pauses(sizes: seq<int>, steps: seq<Step>, c: nat, i: nat): real
    requires Run(sizes, steps).Some?
  {
    if steps == [] then 0.0
    else Pauses(sizes, steps[..|steps|-1], c, i) +
         if EndsInAbort(sizes, steps, c, i) then steps[|steps|-1].pause else 0.0
  }

  /** The i-th call of client c as the steps tell it. */
  function CallFromSteps(sizes: seq<int>, steps: seq<Step>, c: nat, i: nat): Call
    requires Run(sizes, steps).Some? && i < |Begins(sizes, steps, c)|
  {
    var b := Begins(sizes, steps, c)[i];
    Call(b.key, b.value, Aborts(sizes, steps, c, i), Pauses(sizes, steps, c, i), b.start)
  }

  /** What the client's record must be, given the steps. */
  ghost predicate Accounted(sizes: seq<int>, steps: seq<Step>, s: System, c: nat)
    requires Run(sizes, steps).Some? && c < |s.clients|
  {
    var cl, n, begun := s.clients[c], |s.clients[c].outcomes|, |Begins(sizes, steps, c)|;
    && begun == n + (if cl.pc.Active? then 1 else 0)
    && (cl.pc.Active? ==> cl.pc.call == CallFromSteps(sizes, steps, c, n) && Aborts(sizes, steps, c, n) < 100)
    && (forall i :: 0 <= i < n ==>
          && cl.outcomes[i].call == CallFromSteps(sizes, steps, c, i)
          && Aborts(sizes, steps, c, i) <= 100
          && (cl.outcomes[i].Raised? <==> Aborts(sizes, steps, c, i) == 100))
    && (forall i :: i >= begun ==> Aborts(sizes, steps, c, i) == 0 && Pauses(sizes, steps, c, i) == 0.0)
    && (forall i :: |Select(s.conflicts, OfCall(c, i))| == Aborts(sizes, steps, c, i))
  }

  /** Every call is accounted for: it is the one requested; its attempts and its sleep are exactly its
      aborted EXECs and their pauses; a call that is running or has returned was aborted fewer than
      100 times, and it raises exactly at the 100th abort. */
  lemma {:induction false} CallsAccounted(sizes: seq<int>, steps: seq<Step>, s: System, c: nat)
    requires Run(sizes, steps) == Some(s) && c < |sizes|
    ensures |s.clients| == |sizes| && Accounted(sizes, steps, s, c)
  {
    hide Run, Next, Select, Accounted;
    if steps == [] {
      NothingYet(sizes, c);
    } else {
      var init := steps[..|steps|-1];
      RunSplit(sizes, steps);
      var before := Run(sizes, init).value;
      CallsAccounted(sizes, init, before, c);
      StepAccounted(sizes, steps, before, s, c);
    }
  }

  lemma NothingYet(sizes: seq<int>, c: nat)
    requires c < |sizes|
    ensures Run(sizes, []) == Some(Initial(|sizes|)) && |Initial(|sizes|).clients| == |sizes|
    ensures Accounted(sizes, [], Initial(|sizes|), c)
  {
  }

  /** What a step does to the log, the conflicts and the client it belongs to. */
  lemma StepEffect(sizes: seq<int>, s: System, step: Step, s': System, c: nat)
    requires Next(sizes, s, step) == Some(s') && c < |s.clients|
    ensures |s'.clients| == |s.clients|
    ensures step.ReadBucket? || step.client != c ==> s'.clients[c] == s.clients[c]
    ensures !step.ReadBucket? && step.client == c && !step.Exec? ==>
              && s'.clients[c].outcomes == s.clients[c].outcomes && s'.clients[c].pc.Active?
              && s'.log == s.log && s'.conflicts == s.conflicts
              && (if step.Begin? then
                    && s.clients[c].pc.Idle?
                    && s'.clients[c].pc.call == Call(step.key, step.value, 0, 0.0, |s.log|)
                  else s.clients[c].pc.Active? && s'.clients[c].pc.call == s.clients[c].pc.call)
    ensures !step.Exec? ==> s'.conflicts == s.conflicts && s'.log == s.log
    ensures step.Exec? ==>
              if s'.log == s.log then ConflictRecorded(s, s', step.client) else s'.conflicts == s.conflicts
    ensures step.Exec? && step.client == c ==>
              && s.clients[c].pc.Active?
              && ExecEffect(s.clients[c], s'.clients[c], step.pause, s'.log == s.log)
  {
    hide ApplyUpdate, Backoff;
    if step.Exec? && s'.conflicts == s.conflicts {
      assert |s'.log| == |s.log| + 1;
    }
  }

  /** One more conflict, of the call the client is in. */
  predicate ConflictRecorded(s: System, s': System, d: nat) {
    && d < |s.clients| && s.clients[d].pc.Active?
    && var call := s.clients[d].pc.call;
       s'.conflicts == s.conflicts + [Event(d, |s.clients[d].outcomes|, call.key, call.value)]
  }

  /** An EXEC either finishes its call, or is aborted: one more attempt, one more pause, and at the
      100th the call raises. */
  predicate ExecEffect(cl: Client, cl': Client, pause: real, aborted: bool)
    requires cl.pc.Active?
  {
    var call := cl.pc.call;
    if !aborted then
      && cl'.pc.Idle? && |cl'.outcomes| == |cl.outcomes| + 1 && cl'.outcomes[..|cl.outcomes|] == cl.outcomes
      && cl'.outcomes[|cl.outcomes|].Returned? && cl'.outcomes[|cl.outcomes|].call == call
    else
      var call' := Call(call.key, call.value, call.attempt + 1, call.slept + pause, call.start);
      if call.attempt + 1 < 100 then cl'.outcomes == cl.outcomes && cl'.pc.Active? && cl'.pc.call == call'
      else
        && cl'.pc.Idle? && |cl'.outcomes| == |cl.outcomes| + 1 && cl'.outcomes[..|cl.outcomes|] == cl.outcomes
        && cl'.outcomes[|cl.outcomes|].Raised? && cl'.outcomes[|cl.outcomes|].call == call'
  }

  /** How the last step changes the tallies. */
  lemma Tallies(sizes: seq<int>, steps: seq<Step>, s: System, s': System, c: nat)
    requires steps != [] && Run(sizes, steps) == Some(s') && Run(sizes, steps[..|steps|-1]) == Some(s)
    requires c < |s.clients|
    ensures var init, step := steps[..|steps|-1], steps[|steps|-1];
            var aborted := step.Exec? && step.client == c && s'.log == s.log;
            && Begins(sizes, steps, c) == Begins(sizes, init, c) +
                 (if step.Begin? && step.client == c then [Begun(step.key, step.value, |s.log|)] else [])
            && (forall i: nat :: Aborts(sizes, steps, c, i) ==
                  Aborts(sizes, init, c, i) + if aborted && i == |s.clients[c].outcomes| then 1 else 0)
            && (forall i: nat :: Pauses(sizes, steps, c, i) ==
                  Pauses(sizes, init, c, i) + if aborted && i == |s.clients[c].outcomes| then step.pause else 0.0)
  {
    hide Run, Next;
  }

  lemma StepAccounted(sizes: seq<int>, steps: seq<Step>, s: System, s': System, c: nat)
    requires steps != [] && Run(sizes, steps) == Some(s') && Run(sizes, steps[..|steps|-1]) == Some(s)
    requires Next(sizes, s, steps[|steps|-1]) == Some(s')
    requires c < |s.clients| == |sizes| && Accounted(sizes, steps[..|steps|-1], s, c)
    ensures |s'.clients| == |sizes| && Accounted(sizes, steps, s', c)
  {
    hide Run, Next, Select, Begins, Aborts, Pauses;
    var step := steps[|steps|-1];
    StepEffect(sizes, s, step, s', c);
    Tallies(sizes, steps, s, s', c);
    forall i: nat ensures |Select(s'.conflicts, OfCall(c, i))| == Aborts(sizes, steps, c, i) {
      if step.Exec? && s'.log == s.log {
        SelectSnoc(s.conflicts, s'.conflicts[|s.conflicts|], OfCall(c, i));
      }
    }
    hide ConflictRecorded;
    if step.Exec? && step.client == c {
      ExecAccounted(sizes, steps, s, s', c);
    }
  }

  lemma ExecAccounted(sizes: seq<int>, steps: seq<Step>, s: System, s': System, c: nat)
    requires steps != [] && Run(sizes, steps) == Some(s') && Run(sizes, steps[..|steps|-1]) == Some(s)
    requires Next(sizes, s, steps[|steps|-1]) == Some(s') && steps[|steps|-1].Exec? && steps[|steps|-1].client == c
    requires c < |s.clients| == |sizes| == |s'.clients| && Accounted(sizes, steps[..|steps|-1], s, c)
    requires forall i: nat :: |Select(s'.conflicts, OfCall(c, i))| == Aborts(sizes, steps, c, i)
    ensures Accounted(sizes, steps, s', c)
  {
    hide Run, Next, Select, Begins, Aborts, Pauses, ConflictRecorded;
    StepEffect(sizes, s, steps[|steps|-1], s', c);
    Tallies(sizes, steps, s, s', c);
    var n := |s.clients[c].outcomes|;
    var outcomes' := s'.clients[c].outcomes;
    assert forall i :: 0 <= i < n ==> outcomes'[i] == s.clients[c].outcomes[i];
  }

  // ----- reads -----

  /** The k-th answer belongs to the k-th read request: it is the state, at that very moment, of the key
      that was asked for. */
  lemma {:induction false} ReadsAreCurrent(sizes: seq<int>, steps: seq<Step>, s: System, t: nat)
    requires Run(sizes, steps) == Some(s) && t < |steps| && steps[t].ReadBucket?
    ensures Run(sizes, steps[..t]).Some?
    ensures var at := Run(sizes, steps[..t]).value;
            && at.log <= s.log && |at.answers| < |s.answers|
            && s.answers[|at.answers|] ==
               Observation(steps[t].key, StateAfter(at.log, sizes, steps[t].key), |at.log|)
  {
    hide Run, Next, Select, StateAfter;
    var init := steps[..|steps|-1];
    RunSplit(sizes, steps);
    var before := Run(sizes, init).value;
    StepAppends(sizes, before, steps[|steps|-1], s);
    if t == |steps| - 1 {
      NoLostOrDuplicatedUpdates(sizes, init, before);
      ReadAnswer(sizes, before, steps[t], s);
    } else {
      assert init[..t] == steps[..t];
      ReadsAreCurrent(sizes, init, before, t);
    }
  }

  lemma StepAppends(sizes: seq<int>, s: System, step: Step, s': System)
    requires Next(sizes, s, step) == Some(s')
    ensures s.log <= s'.log && s.answers <= s'.answers
    ensures |s'.answers| == |s.answers| + if step.ReadBucket? then 1 else 0
  {
    hide ApplyUpdate, Backoff;
  }

  lemma ReadAnswer(sizes: seq<int>, s: System, step: Step, s': System)
    requires Next(sizes, s, step) == Some(s') && step.ReadBucket?
    ensures s'.answers == s.answers + [Observation(step.key, Stored(s.db, step.key), |s.log|)]
  {
  }

  /** Nobody else is answered. */
  lemma {:induction false} OneAnswerPerRead(sizes: seq<int>, steps: seq<Step>, s: System)
    requires Run(sizes, steps) == Some(s)
    ensures |s.answers| == Reads(steps)
  {
    hide Next;
    if steps != [] {
      RunSplit(sizes, steps);
      var before := Run(sizes, steps[..|steps|-1]).value;
      OneAnswerPerRead(sizes, steps[..|steps|-1], before);
      StepAppends(sizes, before, steps[|steps|-1], s);
    }
  }

  function Reads(steps: seq<Step>): nat {
    if steps == [] then 0 else Reads(steps[..|steps|-1]) + if steps[|steps|-1].ReadBucket? then 1 else 0
  }

  // ----- nobody is ever stuck -----

  /** In every state every client can move: an idle one may begin any call, an active one may issue its next
      command, and an EXEC may be followed by any pause up to the bound of its attempt. */
  lemma {:induction false} NobodyIsStuck(sizes: seq<int>, s: System, c: nat, key: string, value: real, pause: real)
    requires c < |s.clients|
    ensures match s.clients[c].pc
            case Idle => Next(sizes, s, Begin(c, key, value)).Some?
            case Active(call, ToWatch) => Next(sizes, s, Watch(c)).Some?
            case Active(call, ToGet(_, _)) => Next(sizes, s, Get(c)).Some?
            case Active(call, ToExec(_, _, _, _)) =>
              0.0 <= pause <= Backoff(call.attempt) ==> Next(sizes, s, Exec(c, pause)).Some?
  {
    hide ApplyUpdate, Backoff;
  }

  /** A call that is left alone for one attempt commits, whatever happened before: its value is next in the
      commit order and it returns the state with that value folded in. */
  lemma {:induction false} LeftAloneCommits(sizes: seq<int>, steps: seq<Step>, s: System, c: nat, pause: real)
    requires Run(sizes, steps) == Some(s) && c < |s.clients|
    requires s.clients[c].pc.Active? && s.clients[c].pc.stage.ToWatch?
    ensures var alone := Run(sizes, steps + [Watch(c), Get(c), Exec(c, pause)]);
            var call, n := s.clients[c].pc.call, |s.clients[c].outcomes|;
            && alone.Some?
            && alone.value.log == s.log + [Event(c, n, call.key, call.value)]
            && |alone.value.clients| == |s.clients|
            && alone.value.clients[c].pc.Idle?
            && alone.value.clients[c].outcomes == s.clients[c].outcomes +
                 [Returned(call, KeyState(alone.value.log, sizes, call.key), |s.log|)]
  {
    hide KeyState, ApplyUpdate, Select, Run;
    var call, n := s.clients[c].pc.call, |s.clients[c].outcomes|;
    var one, two, three := steps + [Watch(c)], steps + [Watch(c), Get(c)], steps + [Watch(c), Get(c), Exec(c, pause)];
    RunStep(sizes, steps, Watch(c));
    assert two == one + [Get(c)] && three == two + [Exec(c, pause)];
    RunStep(sizes, one, Get(c));
    RunStep(sizes, two, Exec(c, pause));
    RunKeepsInv(sizes, steps);
    assert DbOk(sizes, s.db, s.log);
    KeyStateSnoc(s.log, Event(c, n, call.key, call.value), sizes, call.key);
  }

  lemma RunStep(sizes: seq<int>, steps: seq<Step>, step: Step)
    requires Run(sizes, steps).Some?
    ensures Run(sizes, steps + [step]) == Next(sizes, Run(sizes, steps).value, step)
  {
    assert (steps + [step])[..|steps|] == steps;
  }
}
