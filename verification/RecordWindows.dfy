/** From an entity's records to padded window encodings
    (phase2/encoding/reference_encoder_service.py, phase2/encoding/record_encoder.py). */
module RecordWindows {
  import opened Sorting
  import opened Ordering
  import opened Lists

  datatype RawRecord = RawRecord(entityId: string, timestamp: int, metricName: string, value: real)

  predicate RecordLeq(r: RawRecord, s: RawRecord) {
    r.timestamp < s.timestamp || (r.timestamp == s.timestamp && StringLeq(r.metricName, s.metricName))
  }

  lemma RecordLeqIsOrder()
    ensures IsOrder(RecordLeq)
  {
    forall x: RawRecord, y: RawRecord ensures RecordLeq(x, y) || RecordLeq(y, x) {
      StringLeqTotal(x.metricName, y.metricName);
    }
    forall x: RawRecord, y: RawRecord, z: RawRecord | RecordLeq(x, y) && RecordLeq(y, z) ensures RecordLeq(x, z) {
      if StringLeq(x.metricName, y.metricName) && StringLeq(y.metricName, z.metricName) {
        StringLeqTransitive(x.metricName, y.metricName, z.metricName);
      }
    }
  }

  function Ordered(records: seq<RawRecord>): seq<RawRecord> {
    Sort(records, RecordLeq)
  }

  /** All records, chronologically, metric names breaking ties and equal keys in arrival order. */
  lemma {:induction false} OrderedExact(records: seq<RawRecord>)
    ensures multiset(Ordered(records)) == multiset(records)
    ensures forall i, j :: 0 <= i < j < |records| ==>
              var r, s := Ordered(records)[i], Ordered(records)[j];
              r.timestamp <= s.timestamp && (r.timestamp == s.timestamp ==> StringLeq(r.metricName, s.metricName))
    ensures forall r :: Ties(Ordered(records), r, RecordLeq) == Ties(records, r, RecordLeq)
  {
    hide StringLeq, Ties;
    RecordLeqIsOrder();
    SortSorts(records, RecordLeq);
    var o := Ordered(records);
    forall i, j | 0 <= i < j < |o| ensures RecordLeq(o[i], o[j]) {
    }
    forall r ensures Ties(o, r, RecordLeq) == Ties(records, r, RecordLeq) {
      SortStable(records, r, RecordLeq);
    }
  }

  function BuildWindows(records: seq<RawRecord>, seqLen: nat): seq<seq<RawRecord>>
    requires seqLen >= 1
  {
    Chunks(Ordered(records), seqLen)
  }

  // ----- encoding one window -----

  /** The encoder's row for one record: numeric, categorical and timestamp columns. */
  datatype EncodedRow = EncodedRow(numeric: seq<real>, categorical: seq<int>, timestamp: real)

  const ZERO_ROW := EncodedRow([0.0, 0.0, 0.0], [0, 0, 0, 0], 0.0)

  /** The records an encoding is made of: sorted again, then cut to the most recent ones. */
  function Retained(records: seq<RawRecord>, encoderSeqLen: int): seq<RawRecord> {
    var ordered := Ordered(records);
    if |ordered| > encoderSeqLen then Suffix(ordered, encoderSeqLen) else ordered
  }

  function EncodeAll(f: RawRecord -> EncodedRow, records: seq<RawRecord>): (rows: seq<EncodedRow>)
    ensures |rows| == |records|
  {
    seq(|records|, i requires 0 <= i < |records| => f(records[i]))
  }

  /** The loop over one entity's (or window's) records: for a length of at least 1 it encodes the most recent
      records, that many or all, in chronological order; the slice takes 0 as "everything" and a negative
      length as "all but the first". */
  method EncodeEntityRecords(f: RawRecord -> EncodedRow, records: seq<RawRecord>, encoderSeqLen: int)
    returns (rows: seq<EncodedRow>)
    ensures rows == EncodeAll(f, Retained(records, encoderSeqLen))
    ensures |rows| == if 1 <= encoderSeqLen < |records| then encoderSeqLen
                      else if encoderSeqLen >= 0 then |records|
                      else if -encoderSeqLen < |records| then |records| + encoderSeqLen else 0
    ensures |Ordered(records)| == |records|
    ensures forall j :: 0 <= j < |rows| ==> rows[j] == f(Ordered(records)[|records| - |rows| + j])
  {
    hide Sort, Suffix;
    SuffixExact(Ordered(records), encoderSeqLen);
    var ordered := Ordered(records);
    if |ordered| > encoderSeqLen {
      ordered := Suffix(ordered, encoderSeqLen);
    }
    rows := [];
    for i := 0 to |ordered|
      invariant rows == EncodeAll(f, ordered)[..i]
    {
      rows := rows + [f(ordered[i])];
    }
  }

  /** Pads the encodings of a batch to the longest one; an empty batch is rejected. */
  method Collate(encodings: seq<seq<EncodedRow>>) returns (batch: array2?<EncodedRow>, lengths: seq<nat>)
    ensures batch == null <==> encodings == []
    ensures batch != null ==>
              && fresh(batch) && batch.Length0 == |encodings| == |lengths|
              && (forall i :: 0 <= i < |encodings| ==> lengths[i] == |encodings[i]| <= batch.Length1)
              && (exists i :: 0 <= i < |encodings| && |encodings[i]| == batch.Length1)
              && (forall i, j :: 0 <= i < |encodings| && 0 <= j < batch.Length1 ==>
                    batch[i, j] == if j < |encodings[i]| then encodings[i][j] else ZERO_ROW)
  {
    if encodings == [] {
      return null, [];
    }
    lengths := [|encodings[0]|];
    var maxLen, longest := |encodings[0]|, 0;
    for i := 1 to |encodings|
      invariant |lengths| == i && 0 <= longest < i && maxLen == |encodings[longest]|
      invariant forall k :: 0 <= k < i ==> lengths[k] == |encodings[k]| <= maxLen
    {
      lengths := lengths + [|encodings[i]|];
      if |encodings[i]| > maxLen {
        maxLen, longest := |encodings[i]|, i;
      }
    }
    batch := new EncodedRow[|encodings|, maxLen]((i, j) => ZERO_ROW);
    for i := 0 to |encodings|
      invariant forall k, j :: 0 <= k < |encodings| && 0 <= j < maxLen ==>
                  batch[k, j] == if k < i && j < |encodings[k]| then encodings[k][j] else ZERO_ROW
    {
      for j := 0 to lengths[i]
        invariant forall k, m :: 0 <= k < |encodings| && 0 <= m < maxLen ==>
                    batch[k, m] == if (k < i && m < |encodings[k]|) || (k == i && m < j) then encodings[k][m] else ZERO_ROW
      {
        batch[i, j] := encodings[i][j];
      }
    }
  }

  // ----- nothing is lost -----

  lemma {:induction false} ChunkOfSorted(s: seq<RawRecord>, n: nat, w: seq<RawRecord>)
    requires n >= 1 && Sorted(s, RecordLeq) && w in Chunks(s, n)
    ensures Sorted(w, RecordLeq)
  {
    if |s| > n {
      var head, tail := s[..n], s[n..];
      if w != head {
        ChunkOfSorted(tail, n, w);
      }
    }
  }

  /** The encoder's own sort never moves a record of a window, ties included. */
  lemma {:induction false} WindowsStaySorted(records: seq<RawRecord>, seqLen: nat, w: seq<RawRecord>)
    requires seqLen >= 1 && w in BuildWindows(records, seqLen)
    ensures Ordered(w) == w
  {
    hide RecordLeq;
    RecordLeqIsOrder();
    SortSorts(records, RecordLeq);
    ChunkOfSorted(Ordered(records), seqLen, w);
    SortFixesSorted(w, RecordLeq);
  }

  /** Truncation keeps a non-empty window whole exactly when it is not longer than the encoder's
      length, or that length is 0 (where the slice means "everything"). */
  lemma RetainedWholeIff(w: seq<RawRecord>, encoderSeqLen: int)
    requires Ordered(w) == w && w != []
    ensures |Retained(w, encoderSeqLen)| <= |w|
    ensures |Retained(w, encoderSeqLen)| == |w| <==> encoderSeqLen == 0 || |w| <= encoderSeqLen
    ensures |Retained(w, encoderSeqLen)| == |w| ==> Retained(w, encoderSeqLen) == w
  {
  }

  function RetainedWindows(ws: seq<seq<RawRecord>>, encoderSeqLen: int): (rs: seq<seq<RawRecord>>)
    ensures |rs| == |ws|
  {
    seq(|ws|, i requires 0 <= i < |ws| => Retained(ws[i], encoderSeqLen))
  }

  lemma {:induction false} FlattenLengths(a: seq<seq<RawRecord>>, b: seq<seq<RawRecord>>)
    requires |a| == |b| && forall i :: 0 <= i < |a| ==> |a[i]| <= |b[i]|
    ensures |Flatten(a)| <= |Flatten(b)|
    ensures |Flatten(a)| == |Flatten(b)| ==> forall i :: 0 <= i < |a| ==> |a[i]| == |b[i]|
  {
    if a != [] {
      FlattenLengths(a[..|a|-1], b[..|b|-1]);
      forall i | 0 <= i < |a| && |Flatten(a)| == |Flatten(b)| ensures |a[i]| == |b[i]| {
        if i < |a| - 1 { assert a[..|a|-1][i] == a[i] && b[..|b|-1][i] == b[i]; }
      }
    }
  }

  /** Windowing loses nothing, exactly: what is encoded, window after window, is all the records
      in order if and only if the encoder's length covers the longest window (or is 0). */
  lemma {:induction false} WindowingLosesNothingExact(records: seq<RawRecord>, seqLen: nat, encoderSeqLen: int)
    requires seqLen >= 1 && records != []
    ensures Flatten(RetainedWindows(BuildWindows(records, seqLen), encoderSeqLen)) == Ordered(records) <==>
              encoderSeqLen == 0 || (if |records| < seqLen then |records| else seqLen) <= encoderSeqLen
    ensures Flatten(BuildWindows(records, seqLen)) == Ordered(records)
  {
    hide Ordered, Chunks, Retained, Flatten;
    var ws := BuildWindows(records, seqLen);
    var rs := RetainedWindows(ws, encoderSeqLen);
    assert |Ordered(records)| == |records| by { OrderedLength(records); }
    ChunksExact(Ordered(records), seqLen);
    forall i | 0 <= i < |ws|
      ensures |rs[i]| <= |ws[i]|
      ensures |rs[i]| == |ws[i]| <==> encoderSeqLen == 0 || |ws[i]| <= encoderSeqLen
      ensures |rs[i]| == |ws[i]| ==> rs[i] == ws[i]
    {
      assert ws[i] in ws;
      WindowsStaySorted(records, seqLen, ws[i]);
      RetainedWholeIff(ws[i], encoderSeqLen);
    }
    FlattenLengths(rs, ws);
    if encoderSeqLen == 0 || (if |records| < seqLen then |records| else seqLen) <= encoderSeqLen {
      forall i | 0 <= i < |ws| ensures |ws[i]| <= (if |records| < seqLen then |records| else seqLen) {
        ChunkLength(ws, i);
      }
      assert rs == ws;
    }
  }

  lemma OrderedLength(records: seq<RawRecord>)
    ensures |Ordered(records)| == |records|
  {
  }

  lemma {:induction false} ChunkLength(ws: seq<seq<RawRecord>>, i: nat)
    requires i < |ws|
    ensures |ws[i]| <= |Flatten(ws)|
  {
    if i < |ws| - 1 {
      ChunkLength(ws[..|ws|-1], i);
    }
  }

  /** Encoding and cutting windows commute: the encodings, one after the other, are the encodings
      of the sorted records, and their lengths add up to the number of records. */
  lemma {:induction false} EncodingLosesNothing(f: RawRecord -> EncodedRow, records: seq<RawRecord>,
                                                seqLen: nat, encoderSeqLen: int)
    requires 1 <= seqLen <= encoderSeqLen
    ensures var ws := BuildWindows(records, seqLen);
            var encodings := seq(|ws|, i requires 0 <= i < |ws| => EncodeAll(f, Retained(ws[i], encoderSeqLen)));
            Flatten(encodings) == EncodeAll(f, Ordered(records)) && |Flatten(encodings)| == |records|
  {
    hide Retained, Ordered, Chunks, EncodeAll;
    var ws := BuildWindows(records, seqLen);
    var encodings := seq(|ws|, i requires 0 <= i < |ws| => EncodeAll(f, Retained(ws[i], encoderSeqLen)));
    OrderedLength(records);
    ChunksExact(Ordered(records), seqLen);
    forall i | 0 <= i < |ws| ensures encodings[i] == EncodeAll(f, ws[i]) {
      assert ws[i] in ws;
      WindowsStaySorted(records, seqLen, ws[i]);
      RetainedWholeIff(ws[i], encoderSeqLen);
    }
    EncodeFlatten(f, ws, encodings);
  }

  lemma {:induction false} EncodeFlatten(f: RawRecord -> EncodedRow, ws: seq<seq<RawRecord>>,
                                         encodings: seq<seq<EncodedRow>>)
    requires |encodings| == |ws| && forall i :: 0 <= i < |ws| ==> encodings[i] == EncodeAll(f, ws[i])
    ensures Flatten(encodings) == EncodeAll(f, Flatten(ws))
  {
    if ws != [] {
      EncodeFlatten(f, ws[..|ws|-1], encodings[..|ws|-1]);
    }
  }

  /** The windows by position: window i starts at record i * seqLen of the sorted records. */
  lemma {:induction false} WindowsExact(records: seq<RawRecord>, seqLen: nat)
    requires seqLen >= 1
    ensures var o, ws := Ordered(records), BuildWindows(records, seqLen);
            && |o| == |records|
            && |records| <= ChunkStart(|ws|, seqLen) < |records| + seqLen
            && forall i :: 0 <= i < |ws| ==>
                 var start := ChunkStart(i, seqLen);
                 start < |o| && ws[i] == o[start..if start + seqLen < |o| then start + seqLen else |o|]
  {
    hide Ordered;
    OrderedLength(records);
    ChunksAt(Ordered(records), seqLen);
  }
}
