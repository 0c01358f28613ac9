/** Polling, accumulating and flushing event batches
    (phase2/ingestion/batch_accumulator.py, phase2/ingestion/ingestion_pipeline.py). */
module Ingestion {
  import opened Wrappers

  datatype Record = Record(entityId: string, timestamp: int, metricName: string, value: real)

  /** A list object: handing it over shares it, it is not copied. */
  class RecordList {
    var items: seq<Record>

    constructor ()
      ensures items == []
    {
      items := [];
    }
  }

  datatype EventBatch = EventBatch(records: RecordList, source: string, nInvalid: nat)

  class BatchAccumulator {
    const windowSeconds: real
    const source: string
    var buffer: RecordList
    var nInvalid: nat
    var windowStart: real

    constructor (windowSeconds: real, source: string, now: real)
      ensures fresh(buffer) && buffer.items == [] && nInvalid == 0 && windowStart == now
      ensures this.windowSeconds == windowSeconds && this.source == source
    {
      this.windowSeconds, this.source := windowSeconds, source;
      buffer := new RecordList();
      nInvalid, windowStart := 0, now;
    }

    method Add(record: Record)
      modifies buffer
      ensures buffer.items == old(buffer.items) + [record]
    {
      buffer.items := buffer.items + [record];
    }

    method MarkInvalid(count: nat)
      modifies this`nInvalid
      ensures nInvalid == old(nInvalid) + count
    {
      nInvalid := nInvalid + count;
    }

    predicate ShouldFlush(now: real)
      reads this
    {
      now - windowStart >= windowSeconds
    }

    /** Hands the buffer itself over and starts a new one; a window without any event emits nothing. */
    method Flush(now: real) returns (batch: Option<EventBatch>)
      modifies this
      ensures windowStart == now && nInvalid == 0 && buffer.items == []
      ensures batch.None? <==> old(buffer.items) == [] && old(nInvalid) == 0
      ensures batch.None? ==> buffer == old(buffer)
      ensures batch.Some? ==>
                && batch.value == EventBatch(old(buffer), source, old(nInvalid))
                && old(buffer).items == old(buffer.items)
                && fresh(buffer)
    {
      windowStart := now;
      if buffer.items == [] && nInvalid == 0 {
        return None;
      }
      batch := Some(EventBatch(buffer, source, nInvalid));
      buffer := new RecordList();
      nInvalid := 0;
    }
  }

  // ----- what a run of the loop must do, on values -----

  /** One turn of the loop as the environment shapes it; the clock is read once to see whether a
      flush is due and again when flushing. */
  datatype PollResult = Polled(records: seq<Record>, invalid: nat) | PollRaised

  datatype Turn = Turn(poll: PollResult, checkedAt: real, flushedAt: real)

  /** The events waiting for the next flush. */
  datatype Window = Window(records: seq<Record>, invalid: nat, start: real)

  datatype Flushed = Flushed(records: seq<Record>, invalid: nat)

  function AfterPoll(w: Window, poll: PollResult): Window {
    if poll.PollRaised? then w else w.(records := w.records + poll.records, invalid := w.invalid + poll.invalid)
  }

  function AfterFlush(w: Window, seconds: real, turn: Turn): (Window, Option<Flushed>) {
    if turn.checkedAt - w.start < seconds then (w, None)
    else
      (Window([], 0, turn.flushedAt),
       if w.records == [] && w.invalid == 0 then None else Some(Flushed(w.records, w.invalid)))
  }

  function AfterTurn(w: Window, seconds: real, turn: Turn): (Window, Option<Flushed>) {
    AfterFlush(AfterPoll(w, turn.poll), seconds, turn)
  }

  /** What is waiting after a run, and everything flushed during it. */
  function AfterTurns(w: Window, seconds: real, turns: seq<Turn>): (Window, seq<Flushed>) {
    if turns == [] then (w, [])
    else
      var (w', flushed) := AfterTurns(w, seconds, turns[..|turns|-1]);
      var (w'', batch) := AfterTurn(w', seconds, turns[|turns|-1]);
      (w'', if batch.Some? then flushed + [batch.value] else flushed)
  }

  lemma AfterTurnsSnoc(w: Window, seconds: real, turns: seq<Turn>, turn: Turn)
    ensures var (w', flushed) := AfterTurns(w, seconds, turns);
            var (w'', batch) := AfterTurn(w', seconds, turn);
            AfterTurns(w, seconds, turns + [turn]) ==
            (w'', if batch.Some? then flushed + [batch.value] else flushed)
  {
    assert (turns + [turn])[..|turns|] == turns;
  }

  /** The records of all polls that did not raise, in order. */
  function PolledRecords(turns: seq<Turn>): seq<Record> {
    if turns == [] then []
    else
      var earlier, poll := PolledRecords(turns[..|turns|-1]), turns[|turns|-1].poll;
      if poll.Polled? then earlier + poll.records else earlier
  }

  /** The number of invalid events those polls reported. */
  function PolledInvalid(turns: seq<Turn>): nat {
    if turns == [] then 0
    else
      var earlier, poll := PolledInvalid(turns[..|turns|-1]), turns[|turns|-1].poll;
      if poll.Polled? then earlier + poll.invalid else earlier
  }

  lemma PolledSnoc(turns: seq<Turn>, turn: Turn)
    ensures PolledRecords(turns + [turn]) ==
            PolledRecords(turns) + (if turn.poll.Polled? then turn.poll.records else [])
    ensures PolledInvalid(turns + [turn]) ==
            PolledInvalid(turns) + (if turn.poll.Polled? then turn.poll.invalid else 0)
  {
    assert (turns + [turn])[..|turns|] == turns;
  }

  function FlushedRecords(bs: seq<Flushed>): seq<Record> {
    if bs == [] then [] else FlushedRecords(bs[..|bs|-1]) + bs[|bs|-1].records
  }

  function FlushedInvalid(bs: seq<Flushed>): nat {
    if bs == [] then 0 else FlushedInvalid(bs[..|bs|-1]) + bs[|bs|-1].invalid
  }

  lemma FlushedSnoc(bs: seq<Flushed>, b: Flushed)
    ensures FlushedRecords(bs + [b]) == FlushedRecords(bs) + b.records
    ensures FlushedInvalid(bs + [b]) == FlushedInvalid(bs) + b.invalid
  {
    assert (bs + [b])[..|bs|] == bs;
  }

  /** Event conservation over any run, whatever polls raise and whenever flushes fall due: the
      flushed records followed by the waiting ones are the records waiting before followed by all
      polled ones, in order; every invalid event polled is in exactly one flushed batch or still
      waiting; and no batch is empty. */
  lemma {:induction false} EventsAreConserved(w: Window, seconds: real, turns: seq<Turn>)
    ensures var (w', flushed) := AfterTurns(w, seconds, turns);
            && FlushedRecords(flushed) + w'.records == w.records + PolledRecords(turns)
            && FlushedInvalid(flushed) + w'.invalid == w.invalid + PolledInvalid(turns)
            && forall b :: b in flushed ==> |b.records| + b.invalid > 0
  {
    if turns != [] {
      var init, turn := turns[..|turns|-1], turns[|turns|-1];
      EventsAreConserved(w, seconds, init);
      var (w', flushed) := AfterTurns(w, seconds, init);
      var (w'', batch) := AfterTurn(w', seconds, turn);
      var f, p := FlushedRecords(flushed), if turn.poll.Polled? then turn.poll.records else [];
      assert f + (w'.records + p) == (f + w'.records) + p;
      assert w.records + (PolledRecords(init) + p) == (w.records + PolledRecords(init)) + p;
      assert AfterPoll(w', turn.poll).records == w'.records + p && PolledRecords(turns) == PolledRecords(init) + p;
      if batch.Some? {
        FlushedSnoc(flushed, batch.value);
      }
    }
  }

  // ----- when flushes fall due -----

  /** A run in which the window never elapses flushes nothing and keeps everything. */
  lemma {:induction false} NotDueYet(w: Window, seconds: real, turns: seq<Turn>)
    requires forall i :: 0 <= i < |turns| ==> turns[i].checkedAt - w.start < seconds
    ensures AfterTurns(w, seconds, turns) ==
            (Window(w.records + PolledRecords(turns), w.invalid + PolledInvalid(turns), w.start), [])
  {
    if turns == [] {
      assert w.records + [] == w.records;
    } else {
      var init, turn := turns[..|turns|-1], turns[|turns|-1];
      NotDueYet(w, seconds, init);
      AppendPolled(w.records, PolledRecords(init), turn.poll);
    }
  }

  lemma AppendPolled(a: seq<Record>, b: seq<Record>, poll: PollResult)
    ensures poll.Polled? ==> (a + b) + poll.records == a + (b + poll.records)
  {
  }

  /** A run up to the first turn that finds the window elapsed: if anything is waiting by then, exactly that is
      flushed, as one batch, and the next window starts when the flush did. */
  lemma {:induction false} FirstFlush(w: Window, seconds: real, turns: seq<Turn>)
    requires turns != [] && turns[|turns|-1].checkedAt - w.start >= seconds
    requires forall i :: 0 <= i < |turns| - 1 ==> turns[i].checkedAt - w.start < seconds
    ensures var records, invalid := w.records + PolledRecords(turns), w.invalid + PolledInvalid(turns);
            AfterTurns(w, seconds, turns) ==
            (Window([], 0, turns[|turns|-1].flushedAt),
             if records == [] && invalid == 0 then [] else [Flushed(records, invalid)])
  {
    hide AfterTurns, PolledRecords, PolledInvalid;
    var init, turn := turns[..|turns|-1], turns[|turns|-1];
    assert turns == init + [turn];
    NotDueYet(w, seconds, init);
    AfterTurnsSnoc(w, seconds, init, turn);
    PolledSnoc(init, turn);
    var p := if turn.poll.Polled? then turn.poll.records else [];
    assert (w.records + PolledRecords(init)) + p == w.records + (PolledRecords(init) + p);
    assert AfterPoll(AfterTurns(w, seconds, init).0, turn.poll).records == w.records + PolledRecords(turns);
    var b := Flushed(w.records + PolledRecords(turns), w.invalid + PolledInvalid(turns));
    assert [] + [b] == [b];
  }

  /** Runs compose, so the turns that flush are found one after the other, each counted from the flush before. */
  lemma {:induction false} TurnsCompose(w: Window, seconds: real, a: seq<Turn>, b: seq<Turn>)
    ensures var (w', flushed) := AfterTurns(w, seconds, a);
            var (w'', more) := AfterTurns(w', seconds, b);
            AfterTurns(w, seconds, a + b) == (w'', flushed + more)
  {
    hide AfterTurn;
    if b == [] {
      assert a + b == a;
      var flushed := AfterTurns(w, seconds, a).1;
      assert flushed + [] == flushed;
    } else {
      hide AfterTurns;
      var init, turn := b[..|b|-1], b[|b|-1];
      TurnsCompose(w, seconds, a, init);
      assert a + b == (a + init) + [turn] && b == init + [turn];
      AfterTurnsSnoc(w, seconds, a + init, turn);
      var (w', flushed) := AfterTurns(w, seconds, a);
      AfterTurnsSnoc(w', seconds, init, turn);
      var (w'', more) := AfterTurns(w', seconds, init);
      var batch := AfterTurn(w'', seconds, turn).1;
      if batch.Some? {
        assert (flushed + more) + [batch.value] == flushed + (more + [batch.value]);
      }
    }
  }

  // ----- the pipeline -----

  class IngestionPipeline {
    const accumulator: BatchAccumulator
    var eventsReceivedTotal: nat
    var validationErrorsTotal: nat
    // History: what was handed over, and what it held at that moment.
    ghost var handed: seq<RecordList>
    ghost var flushed: seq<Flushed>

    /** Handed-over lists still hold what they held when they were flushed and none is the current
        buffer; with what is waiting they account for every event in both counters. */
    ghost predicate Valid()
      reads this, accumulator, accumulator.buffer, handed
    {
      && |handed| == |flushed|
      && (forall i :: 0 <= i < |handed| ==> handed[i] != accumulator.buffer && handed[i].items == flushed[i].records)
      && (forall i, j :: 0 <= i < j < |handed| ==> handed[i] != handed[j])
      && validationErrorsTotal == FlushedInvalid(flushed) + accumulator.nInvalid
      && eventsReceivedTotal ==
         |FlushedRecords(flushed)| + |accumulator.buffer.items| + validationErrorsTotal
    }

    /** What is waiting for the next flush. */
    ghost function Waiting(): Window
      reads this, accumulator, accumulator.buffer
    {
      Window(accumulator.buffer.items, accumulator.nInvalid, accumulator.windowStart)
    }

    constructor (windowSeconds: real, source: string, now: real)
      ensures Valid() && handed == [] && flushed == [] && fresh(accumulator) && fresh(accumulator.buffer)
      ensures Waiting() == Window([], 0, now) && eventsReceivedTotal == validationErrorsTotal == 0
      ensures accumulator.windowSeconds == windowSeconds && accumulator.source == source
    {
      accumulator := new BatchAccumulator(windowSeconds, source, now);
      eventsReceivedTotal, validationErrorsTotal := 0, 0;
      handed, flushed := [], [];
    }

    function ValidationErrorRate(): real
      reads this
    {
      if eventsReceivedTotal == 0 then 0.0 else validationErrorsTotal as real / eventsReceivedTotal as real
    }

    /** A poll that raises changes nothing; otherwise its records enter the buffer in order and
        every event is counted. */
    method PollOnce(poll: PollResult)
      requires Valid()
      modifies this, accumulator`nInvalid, accumulator.buffer
      ensures Valid() && accumulator.buffer == old(accumulator.buffer)
      ensures handed == old(handed) && flushed == old(flushed)
      ensures Waiting() == AfterPoll(old(Waiting()), poll)
      ensures poll.PollRaised? ==>
                && eventsReceivedTotal == old(eventsReceivedTotal)
                && validationErrorsTotal == old(validationErrorsTotal)
      ensures poll.Polled? ==>
                && eventsReceivedTotal == old(eventsReceivedTotal) + |poll.records| + poll.invalid
                && validationErrorsTotal == old(validationErrorsTotal) + poll.invalid
    {
      hide FlushedRecords, FlushedInvalid;
      if poll.PollRaised? {
        return;
      }
      eventsReceivedTotal := eventsReceivedTotal + |poll.records| + poll.invalid;
      validationErrorsTotal := validationErrorsTotal + poll.invalid;
      ghost var before := accumulator.buffer.items;
      for i := 0 to |poll.records|
        modifies accumulator.buffer
        invariant accumulator.buffer.items == before + poll.records[..i]
      {
        accumulator.Add(poll.records[i]);
      }
      if poll.invalid != 0 {
        accumulator.MarkInvalid(poll.invalid);
      }
      assert poll.records[..|poll.records|] == poll.records;
    }

    /** A due flush hands the batch to the callback. By then it has left the accumulator, and what
        the callback raises is caught, so raising has no effect on this state. */
    method FlushIfDue(turn: Turn) returns (batch: Option<EventBatch>)
      requires Valid()
      modifies this, accumulator
      ensures Valid()
      ensures eventsReceivedTotal == old(eventsReceivedTotal) && validationErrorsTotal == old(validationErrorsTotal)
      ensures accumulator.buffer == old(accumulator.buffer) || fresh(accumulator.buffer)
      ensures var after := AfterFlush(old(Waiting()), accumulator.windowSeconds, turn);
              && Waiting() == after.0
              && HandsOver(batch, after.1, old(accumulator.buffer), old(handed), old(flushed))
    {
      hide FlushedRecords, FlushedInvalid;
      if !accumulator.ShouldFlush(turn.checkedAt) {
        return None;
      }
      ghost var waiting := Waiting();
      batch := accumulator.Flush(turn.flushedAt);
      if batch.Some? {
        FlushedSnoc(flushed, Flushed(waiting.records, waiting.invalid));
        handed := handed + [batch.value.records];
        flushed := flushed + [Flushed(waiting.records, waiting.invalid)];
      }
    }

    /** What the callback gets is the buffer itself and exactly the batch that was due, or nothing
        when none was; the history grows by it. */
    ghost predicate HandsOver(batch: Option<EventBatch>, due: Option<Flushed>, buffer: RecordList,
                              handed0: seq<RecordList>, flushed0: seq<Flushed>)
      reads this, buffer
    {
      && (batch.None? <==> due.None?)
      && (due.None? ==> handed == handed0 && flushed == flushed0)
      && (due.Some? && batch.Some? ==>
            && batch.value == EventBatch(buffer, accumulator.source, due.value.invalid)
            && buffer.items == due.value.records
            && handed == handed0 + [buffer]
            && flushed == flushed0 + [due.value])
    }

    /** One turn of the loop. */
    method TakeTurn(turn: Turn) returns (batch: Option<EventBatch>)
      requires Valid()
      modifies this, accumulator, accumulator.buffer
      ensures Valid()
      ensures accumulator.buffer == old(accumulator.buffer) || fresh(accumulator.buffer)
      ensures var after := AfterTurn(old(Waiting()), accumulator.windowSeconds, turn);
              && Waiting() == after.0
              && HandsOver(batch, after.1, old(accumulator.buffer), old(handed), old(flushed))
      ensures var poll := turn.poll;
              && validationErrorsTotal == old(validationErrorsTotal) + (if poll.Polled? then poll.invalid else 0)
              && eventsReceivedTotal ==
                 old(eventsReceivedTotal) + (if poll.Polled? then |poll.records| + poll.invalid else 0)
    {
      hide Valid, Waiting, AfterPoll, AfterFlush;
      PollOnce(turn.poll);
      batch := FlushIfDue(turn);
    }

    /** The loop, for any sequence of turns until it is stopped: the callback saw exactly the
        batches that fell due, each list is the one handed over and still holds what it held then,
        no event is lost or counted twice, and both counters grew by what the polls delivered. */
    method Run(turns: seq<Turn>) returns (calls: seq<EventBatch>)
      requires Valid()
      modifies this, accumulator, accumulator.buffer
      ensures Valid()
      ensures var (waiting, due) := AfterTurns(old(Waiting()), accumulator.windowSeconds, turns);
              && Waiting() == waiting
              && flushed == old(flushed) + due
              && |calls| == |due|
              && forall i :: 0 <= i < |calls| ==>
                   && calls[i].source == accumulator.source
                   && calls[i].nInvalid == due[i].invalid
                   && calls[i].records.items == due[i].records
      ensures var due := AfterTurns(old(Waiting()), accumulator.windowSeconds, turns).1;
              && FlushedRecords(due) + Waiting().records == old(Waiting()).records + PolledRecords(turns)
              && FlushedInvalid(due) + Waiting().invalid == old(Waiting()).invalid + PolledInvalid(turns)
      ensures old(handed) <= handed && |handed| == |old(handed)| + |calls|
      ensures forall i :: 0 <= i < |calls| ==> calls[i].records == handed[|old(handed)| + i]
      ensures eventsReceivedTotal == old(eventsReceivedTotal) + |PolledRecords(turns)| + PolledInvalid(turns)
      ensures validationErrorsTotal == old(validationErrorsTotal) + PolledInvalid(turns)
    {
      hide Valid, Waiting, AfterTurn, AfterTurns, PolledRecords, PolledInvalid, FlushedRecords, FlushedInvalid;
      calls := [];
      ghost var lists: seq<RecordList> := [];
      assert turns[..0] == [] && |handed| == |flushed| by { SameLength(); }
      NoTurns(old(Waiting()), accumulator.windowSeconds);
      for t := 0 to |turns|
        invariant Valid()
        invariant accumulator.buffer == old(accumulator.buffer) || fresh(accumulator.buffer)
        invariant Waiting() == AfterTurns(old(Waiting()), accumulator.windowSeconds, turns[..t]).0
        invariant flushed == old(flushed) + AfterTurns(old(Waiting()), accumulator.windowSeconds, turns[..t]).1
        invariant handed == old(handed) + lists
        invariant Delivered(calls, accumulator.source, lists,
                            AfterTurns(old(Waiting()), accumulator.windowSeconds, turns[..t]).1)
        invariant eventsReceivedTotal ==
                  old(eventsReceivedTotal) + |PolledRecords(turns[..t])| + PolledInvalid(turns[..t])
        invariant validationErrorsTotal == old(validationErrorsTotal) + PolledInvalid(turns[..t])
      {
        assert turns[..t+1] == turns[..t] + [turns[t]];
        AfterTurnsSnoc(old(Waiting()), accumulator.windowSeconds, turns[..t], turns[t]);
        PolledSnoc(turns[..t], turns[t]);
        ghost var due := AfterTurns(old(Waiting()), accumulator.windowSeconds, turns[..t]).1;
        ghost var handed0, flushed0 := handed, flushed;
        var batch := TakeTurn(turns[t]);
        if batch.Some? {
          assert handed == handed0 + [batch.value.records];
          calls := calls + [batch.value];
          lists := lists + [batch.value.records];
          assert flushed == flushed0 + flushed[|flushed0|..];
        }
      }
      assert turns[..|turns|] == turns;
      EventsAreConserved(old(Waiting()), accumulator.windowSeconds, turns);
      StillHeld(lists, AfterTurns(old(Waiting()), accumulator.windowSeconds, turns).1, old(handed), old(flushed));
    }

    lemma SameLength()
      requires Valid()
      ensures |handed| == |flushed|
    {
    }

    lemma StillHeld(lists: seq<RecordList>, due: seq<Flushed>, handed0: seq<RecordList>, flushed0: seq<Flushed>)
      requires Valid() && |lists| == |due| && |handed0| == |flushed0|
      requires handed == handed0 + lists && flushed == flushed0 + due
      ensures forall i :: 0 <= i < |lists| ==> lists[i].items == due[i].records
    {
      hide FlushedRecords, FlushedInvalid;
      forall i | 0 <= i < |lists| ensures lists[i].items == due[i].records {
        var k := |handed0| + i;
        assert handed[k] == lists[i] && flushed[k] == due[i];
      }
    }
  }

  /** The calls carry these lists and the invalid counts of these batches. */
  predicate Delivered(calls: seq<EventBatch>, source: string, lists: seq<RecordList>, due: seq<Flushed>) {
    |calls| == |lists| == |due|
    && forall i :: 0 <= i < |calls| ==> calls[i] == EventBatch(lists[i], source, due[i].invalid)
  }

  lemma NoTurns(w: Window, seconds: real)
    ensures AfterTurns(w, seconds, []) == (w, []) && PolledRecords([]) == [] && PolledInvalid([]) == 0
  {
  }

  /** The error rate is the invalid share of the events received, zero before any. */
  lemma RateInRange(p: IngestionPipeline)
    requires p.Valid()
    ensures 0.0 <= p.ValidationErrorRate() <= 1.0
    ensures p.ValidationErrorRate() * p.eventsReceivedTotal as real == p.validationErrorsTotal as real
    ensures p.eventsReceivedTotal == 0 ==> p.ValidationErrorRate() == 0.0
  {
    if p.eventsReceivedTotal != 0 {
      RatioAtMostOne(p.validationErrorsTotal as real, p.eventsReceivedTotal as real);
    }
  }

  lemma RatioAtMostOne(x: real, y: real)
    requires 0.0 <= x <= y && y > 0.0
    ensures 0.0 <= x / y <= 1.0
  {
  }
}
