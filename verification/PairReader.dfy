/** Reading augmented pairs back: per row group and entity the two views are sorted and cut into
    windows, and row groups are dealt to workers (phase1/data/streaming_aug_pairs_dataset.py). */
module PairReader {
  import opened Sorting
  import opened Ordering
  import opened AugPairs

  /** Pair id, then timestamp, then metric name. */
  predicate RowLeq(r: AugRow, s: AugRow) {
    r.pairId < s.pairId
    || (r.pairId == s.pairId &&
        (r.timestamp < s.timestamp || (r.timestamp == s.timestamp && StringLeq(r.metricName, s.metricName))))
  }

  lemma RowLeqIsOrder()
    ensures IsOrder(RowLeq)
  {
    forall x: AugRow, y: AugRow ensures RowLeq(x, y) || RowLeq(y, x) {
      StringLeqTotal(x.metricName, y.metricName);
    }
    forall x: AugRow, y: AugRow, z: AugRow | RowLeq(x, y) && RowLeq(y, z) ensures RowLeq(x, z) {
      if StringLeq(x.metricName, y.metricName) && StringLeq(y.metricName, z.metricName) {
        StringLeqTransitive(x.metricName, y.metricName, z.metricName);
      }
    }
  }

  function ViewRows(rows: seq<AugRow>, e: string, v: View): seq<AugRow> {
    if rows == [] then []
    else
      var rest, r := ViewRows(rows[..|rows|-1], e, v), rows[|rows|-1];
      if r.entityId == e && r.view == v then rest + [r] else rest
  }

  /** One entity's rows of one view, in window order. */
  function Group(rows: seq<AugRow>, e: string, v: View): seq<AugRow> {
    Sort(ViewRows(rows, e, v), RowLeq)
  }

  /** A group is its view's rows of the entity, all of them, by pair id, then timestamp, then name. */
  lemma {:induction false} GroupExact(rows: seq<AugRow>, e: string, v: View)
    ensures forall r: AugRow :: multiset(Group(rows, e, v))[r] ==
                        if r.entityId == e && r.view == v then multiset(rows)[r] else 0
    ensures forall i, j :: 0 <= i < j < |Group(rows, e, v)| ==>
              var r, s := Group(rows, e, v)[i], Group(rows, e, v)[j];
              && r.pairId <= s.pairId
              && (r.pairId == s.pairId ==> r.timestamp <= s.timestamp)
              && (r.pairId == s.pairId && r.timestamp == s.timestamp ==> StringLeq(r.metricName, s.metricName))
  {
    hide StringLeq;
    RowLeqIsOrder();
    SortSorts(ViewRows(rows, e, v), RowLeq);
    var g := Group(rows, e, v);
    forall r: AugRow ensures multiset(g)[r] == if r.entityId == e && r.view == v then multiset(rows)[r] else 0 {
      ViewRowsExact(rows, e, v, r);
    }
    forall i, j | 0 <= i < j < |g| ensures RowLeq(g[i], g[j]) {
    }
  }

  lemma {:induction false} ViewRowsExact(rows: seq<AugRow>, e: string, v: View, r: AugRow)
    ensures multiset(ViewRows(rows, e, v))[r] == if r.entityId == e && r.view == v then multiset(rows)[r] else 0
  {
    if rows != [] {
      ViewRowsExact(rows[..|rows|-1], e, v, r);
      assert rows == rows[..|rows|-1] + [rows[|rows|-1]];
    }
  }

  datatype WindowPair = WindowPair(entityId: string, a: seq<AugRow>, b: seq<AugRow>)

  function NumWindows(n: nat, seqLen: nat, stride: nat): nat
    requires stride >= 1
  {
    if n < seqLen then 0 else (n - seqLen) / stride + 1
  }

  lemma StartInBounds(n: nat, seqLen: nat, stride: nat, i: nat)
    requires stride >= 1 && i < NumWindows(n, seqLen, stride)
    ensures i * stride + seqLen <= n
  {
    var m := (n - seqLen) / stride;
    assert n - seqLen == m * stride + (n - seqLen) % stride;
    Smaller(i, m, stride);
  }

  function Shorter(x: nat, y: nat): nat {
    if x < y then x else y
  }

  function WindowAt(ga: seq<AugRow>, gb: seq<AugRow>, e: string, start: nat, seqLen: nat): WindowPair
    requires start + seqLen <= |ga| && start + seqLen <= |gb|
  {
    WindowPair(e, ga[start..start + seqLen], gb[start..start + seqLen])
  }

  function NthWindow(ga: seq<AugRow>, gb: seq<AugRow>, e: string, n: nat, seqLen: nat, stride: nat, i: nat): WindowPair
    requires stride >= 1 && n <= |ga| && n <= |gb| && i < NumWindows(n, seqLen, stride)
  {
    StartInBounds(n, seqLen, stride, i);
    WindowAt(ga, gb, e, i * stride, seqLen)
  }

  /** The windows an entity contributes; none unless it occurs in both views. */
  function EntityWindows(rows: seq<AugRow>, e: string, seqLen: nat, stride: nat): seq<WindowPair>
    requires stride >= 1
  {
    var ga, gb := Group(rows, e, A), Group(rows, e, B);
    if ga == [] || gb == [] then []
    else
      var n := Shorter(|ga|, |gb|);
      seq(NumWindows(n, seqLen, stride), i requires 0 <= i < NumWindows(n, seqLen, stride) =>
        NthWindow(ga, gb, e, n, seqLen, stride, i))
  }

  // ----- alignment -----

  predicate Aligned(w: WindowPair) {
    |w.a| == |w.b| && forall i :: 0 <= i < |w.a| ==> w.a[i].pairId == w.b[i].pairId
  }

  function UpTo(p: int): AugRow -> bool {
    (r: AugRow) => r.pairId <= p
  }

  function InViewUpTo(e: string, v: View, p: int): AugRow -> bool {
    (r: AugRow) => r.entityId == e && r.view == v && r.pairId <= p
  }

  function InView(e: string, v: View): AugRow -> bool {
    (r: AugRow) => r.entityId == e && r.view == v
  }

  /** View u's rows carry the smallest pair ids of view v: up to any id, as many as v has there,
      or all of u's. */
  ghost predicate FillsFirst(rows: seq<AugRow>, e: string, u: View, v: View) {
    forall p: int ::
      Count(rows, InViewUpTo(e, u, p)) == Shorter(Count(rows, InView(e, u)), Count(rows, InViewUpTo(e, v, p)))
  }

  /** Up to every pair id both views hold equally many rows of the entity. */
  ghost predicate WholePairs(rows: seq<AugRow>, e: string) {
    forall p: int :: Count(rows, InViewUpTo(e, A, p)) == Count(rows, InViewUpTo(e, B, p))
  }

  lemma {:induction false} ViewCounts(rows: seq<AugRow>, e: string, v: View, p: int)
    ensures Count(ViewRows(rows, e, v), UpTo(p)) == Count(rows, InViewUpTo(e, v, p))
    ensures |ViewRows(rows, e, v)| == Count(rows, InView(e, v))
  {
    if rows != [] {
      var init := rows[..|rows|-1];
      ViewCounts(init, e, v, p);
      CountSnoc(ViewRows(init, e, v), rows[|rows|-1], UpTo(p));
    }
  }

  lemma GroupCounts(rows: seq<AugRow>, e: string, v: View, p: int)
    ensures Count(Group(rows, e, v), UpTo(p)) == Count(rows, InViewUpTo(e, v, p))
    ensures |Group(rows, e, v)| == Count(rows, InView(e, v))
  {
    hide Count;
    ViewCounts(rows, e, v, p);
    SortCount(ViewRows(rows, e, v), RowLeq, UpTo(p));
  }

  ghost predicate Ascending(s: seq<AugRow>) {
    forall i, j :: 0 <= i < j < |s| ==> s[i].pairId <= s[j].pairId
  }

  lemma GroupAscends(rows: seq<AugRow>, e: string, v: View)
    ensures Ascending(Group(rows, e, v))
  {
    hide Group;
    GroupExact(rows, e, v);
  }

  lemma AscendingCount(s: seq<AugRow>, i: nat, p: int)
    requires Ascending(s) && i < |s|
    ensures s[i].pairId <= p <==> i < Count(s, UpTo(p))
  {
    if s[i].pairId <= p {
      CountAtLeastPrefix(s, i, UpTo(p));
    } else {
      CountAtMostPrefix(s, i, UpTo(p));
    }
  }

  ghost predicate PidPrefix(s: seq<AugRow>, t: seq<AugRow>) {
    |s| <= |t| && forall i :: 0 <= i < |s| ==> s[i].pairId == t[i].pairId
  }

  /** The ids of one ascending list begin another exactly when counting says so. */
  lemma PidPrefixExact(s: seq<AugRow>, t: seq<AugRow>)
    requires Ascending(s) && Ascending(t)
    ensures PidPrefix(s, t) <==> forall p: int :: Count(s, UpTo(p)) == Shorter(|s|, Count(t, UpTo(p)))
  {
    hide Count;
    if PidPrefix(s, t) {
      forall p: int ensures Count(s, UpTo(p)) == Shorter(|s|, Count(t, UpTo(p))) {
        PrefixCounts(s, t, p);
      }
    }
    if forall p: int :: Count(s, UpTo(p)) == Shorter(|s|, Count(t, UpTo(p))) {
      if s != [] {
        AscendingCount(s, |s| - 1, s[|s|-1].pairId);
        assert |s| <= |t|;
      }
      forall i | 0 <= i < |s| ensures s[i].pairId == t[i].pairId {
        var p, q := s[i].pairId, t[i].pairId;
        AscendingCount(s, i, p);
        AscendingCount(t, i, p);
        AscendingCount(s, i, q);
        AscendingCount(t, i, q);
      }
    }
  }

  lemma PrefixCounts(s: seq<AugRow>, t: seq<AugRow>, p: int)
    requires Ascending(s) && Ascending(t) && PidPrefix(s, t)
    ensures Count(s, UpTo(p)) == Shorter(|s|, Count(t, UpTo(p)))
  {
    hide Count;
    var c, d := Count(s, UpTo(p)), Count(t, UpTo(p));
    if c < |s| {
      AscendingCount(s, c, p);
      AscendingCount(t, c, p);
    }
    if c > 0 {
      AscendingCount(s, c - 1, p);
      AscendingCount(t, c - 1, p);
    }
  }

  lemma WindowShape(rows: seq<AugRow>, e: string, seqLen: nat, stride: nat, w: WindowPair) returns (start: nat)
    requires stride >= 1 && w in EntityWindows(rows, e, seqLen, stride)
    ensures start + seqLen <= |Group(rows, e, A)| && start + seqLen <= |Group(rows, e, B)|
    ensures w == WindowAt(Group(rows, e, A), Group(rows, e, B), e, start, seqLen)
  {
    hide Group, WindowAt;
    var ws := EntityWindows(rows, e, seqLen, stride);
    var i :| 0 <= i < |ws| && ws[i] == w;
    var n := Shorter(|Group(rows, e, A)|, |Group(rows, e, B)|);
    StartInBounds(n, seqLen, stride, i);
    start := i * stride;
  }

  ghost predicate AllWindowsAligned(rows: seq<AugRow>, e: string) {
    forall seqLen: nat, stride: nat, w ::
      seqLen >= 1 && stride >= 1 && w in EntityWindows(rows, e, seqLen, stride) ==> Aligned(w)
  }

  /** Alignment, exactly: all windows of an entity, for all window lengths and strides, pair rows
      of the same pair id if and only if one view's rows carry the smallest pair ids of the
      other (or the entity lacks a view). */
  lemma {:induction false} AlignmentExact(rows: seq<AugRow>, e: string)
    ensures AllWindowsAligned(rows, e) <==> FillsFirst(rows, e, A, B) || FillsFirst(rows, e, B, A)
  {
    hide Group, FillsFirst, AllWindowsAligned;
    FillsFirstIsPrefix(rows, e, A, B);
    FillsFirstIsPrefix(rows, e, B, A);
    var ga, gb := Group(rows, e, A), Group(rows, e, B);
    if PidPrefix(ga, gb) || PidPrefix(gb, ga) {
      PrefixAligns(rows, e);
    }
    if AllWindowsAligned(rows, e) {
      forall i | 0 <= i < Shorter(|ga|, |gb|) ensures ga[i].pairId == gb[i].pairId {
        SingleRowWindow(rows, e, i);
      }
    }
  }

  /** Some window of the configured length and stride holds row r. */
  ghost predicate InWindow(n: nat, seqLen: nat, stride: nat, r: nat)
    requires stride >= 1
  {
    exists i: nat :: i < NumWindows(n, seqLen, stride) && StartOf(i, stride) <= r < StartOf(i, stride) + seqLen
  }

  function StartOf(i: nat, stride: nat): nat {
    i * stride
  }

  /** The r-th row of each view in pair-id order has the same pair id, told by counting alone. */
  ghost predicate SameIdAt(rows: seq<AugRow>, e: string, r: nat) {
    forall p: int :: r < Count(rows, InViewUpTo(e, A, p)) <==> r < Count(rows, InViewUpTo(e, B, p))
  }

  /** Rows an entity has in both views. */
  function PairedRows(rows: seq<AugRow>, e: string): nat {
    Shorter(Count(rows, InView(e, A)), Count(rows, InView(e, B)))
  }

  lemma SameIdExact(rows: seq<AugRow>, e: string, r: nat)
    requires r < PairedRows(rows, e)
    ensures r < |Group(rows, e, A)| && r < |Group(rows, e, B)|
    ensures SameIdAt(rows, e, r) <==> Group(rows, e, A)[r].pairId == Group(rows, e, B)[r].pairId
  {
    hide Group, Count, InViewUpTo, InView;
    var ga, gb := Group(rows, e, A), Group(rows, e, B);
    GroupCounts(rows, e, A, 0);
    GroupCounts(rows, e, B, 0);
    GroupAscends(rows, e, A);
    GroupAscends(rows, e, B);
    forall p: int
      ensures r < Count(rows, InViewUpTo(e, A, p)) <==> ga[r].pairId <= p
      ensures r < Count(rows, InViewUpTo(e, B, p)) <==> gb[r].pairId <= p
    {
      GroupCounts(rows, e, A, p);
      GroupCounts(rows, e, B, p);
      AscendingCount(ga, r, p);
      AscendingCount(gb, r, p);
    }
    if SameIdAt(rows, e, r) {
      var p, q := ga[r].pairId, gb[r].pairId;
      assert r < Count(rows, InViewUpTo(e, A, p)) && r < Count(rows, InViewUpTo(e, B, q));
    }
  }

  /** Alignment for the configured length and stride, exactly: all windows of the entity pair rows
      of the same pair id if and only if the views agree, by counting, at every row that some
      window holds. */
  lemma {:induction false} ConfiguredAlignmentExact(rows: seq<AugRow>, e: string, seqLen: nat, stride: nat)
    requires seqLen >= 1 && stride >= 1
    ensures (forall w :: w in EntityWindows(rows, e, seqLen, stride) ==> Aligned(w)) <==>
            forall r: nat :: InWindow(PairedRows(rows, e), seqLen, stride, r) ==> SameIdAt(rows, e, r)
  {
    hide Group, Count, InViewUpTo, InView, SameIdAt, EntityWindows, NumWindows, InWindow, PairedRows;
    var n := PairedRows(rows, e);
    WindowsByNumber(rows, e, seqLen, stride);
    var ws := EntityWindows(rows, e, seqLen, stride);
    if forall w :: w in ws ==> Aligned(w) {
      forall r: nat | InWindow(n, seqLen, stride, r) ensures SameIdAt(rows, e, r) {
        var i := WindowOfRow(n, seqLen, stride, r);
        RowOfWindow(rows, e, seqLen, stride, i, r - StartOf(i, stride));
        assert Aligned(ws[i]);
      }
    }
    if forall r: nat :: InWindow(n, seqLen, stride, r) ==> SameIdAt(rows, e, r) {
      forall w | w in ws ensures Aligned(w) {
        var i :| 0 <= i < |ws| && ws[i] == w;
        forall j | 0 <= j < seqLen ensures w.a[j].pairId == w.b[j].pairId {
          RowOfWindow(rows, e, seqLen, stride, i, j);
          assert SameIdAt(rows, e, StartOf(i, stride) + j);
        }
      }
    }
  }

  lemma WindowOfRow(n: nat, seqLen: nat, stride: nat, r: nat) returns (i: nat)
    requires stride >= 1 && InWindow(n, seqLen, stride, r)
    ensures i < NumWindows(n, seqLen, stride) && StartOf(i, stride) <= r < StartOf(i, stride) + seqLen
  {
    i :| i < NumWindows(n, seqLen, stride) && StartOf(i, stride) <= r < StartOf(i, stride) + seqLen;
  }

  /** The i-th window starts at row i * stride of both views. */
  lemma WindowsByNumber(rows: seq<AugRow>, e: string, seqLen: nat, stride: nat)
    requires seqLen >= 1 && stride >= 1
    ensures |EntityWindows(rows, e, seqLen, stride)| == NumWindows(PairedRows(rows, e), seqLen, stride)
    ensures forall i :: 0 <= i < |EntityWindows(rows, e, seqLen, stride)| ==>
              var w := EntityWindows(rows, e, seqLen, stride)[i];
              && |w.a| == |w.b| == seqLen
              && StartOf(i, stride) + seqLen <= PairedRows(rows, e)
              && PairedRows(rows, e) == Shorter(|Group(rows, e, A)|, |Group(rows, e, B)|)
              && w == WindowAt(Group(rows, e, A), Group(rows, e, B), e, StartOf(i, stride), seqLen)
  {
    hide Group, Count, InView, InViewUpTo;
    GroupCounts(rows, e, A, 0);
    GroupCounts(rows, e, B, 0);
    var ga, gb, ws := Group(rows, e, A), Group(rows, e, B), EntityWindows(rows, e, seqLen, stride);
    forall i | 0 <= i < |ws|
      ensures StartOf(i, stride) + seqLen <= Shorter(|ga|, |gb|)
      ensures ws[i] == WindowAt(ga, gb, e, StartOf(i, stride), seqLen)
    {
      StartInBounds(Shorter(|ga|, |gb|), seqLen, stride, i);
    }
  }

  /** Row j of window i is aligned exactly when the views agree at row i * stride + j. */
  lemma RowOfWindow(rows: seq<AugRow>, e: string, seqLen: nat, stride: nat, i: nat, j: nat)
    requires stride >= 1 && j < seqLen && i < |EntityWindows(rows, e, seqLen, stride)|
    ensures var w, r := EntityWindows(rows, e, seqLen, stride)[i], StartOf(i, stride) + j;
            && |w.a| == |w.b| == seqLen
            && r < PairedRows(rows, e)
            && InWindow(PairedRows(rows, e), seqLen, stride, r)
            && (w.a[j].pairId == w.b[j].pairId <==> SameIdAt(rows, e, r))
            && r < |Group(rows, e, A)| && r < |Group(rows, e, B)|
            && w.a[j] == Group(rows, e, A)[r] && w.b[j] == Group(rows, e, B)[r]
  {
    hide Group, Count, InView, InViewUpTo, SameIdAt, EntityWindows, NumWindows, PairedRows, StartOf;
    WindowsByNumber(rows, e, seqLen, stride);
    SameIdExact(rows, e, StartOf(i, stride) + j);
  }

  lemma PrefixAligns(rows: seq<AugRow>, e: string)
    requires PidPrefix(Group(rows, e, A), Group(rows, e, B)) || PidPrefix(Group(rows, e, B), Group(rows, e, A))
    ensures AllWindowsAligned(rows, e)
  {
    hide Group, EntityWindows;
    forall seqLen: nat, stride: nat, w | seqLen >= 1 && stride >= 1 && w in EntityWindows(rows, e, seqLen, stride)
      ensures Aligned(w)
    {
      var start := WindowShape(rows, e, seqLen, stride, w);
    }
  }

  lemma SingleRowWindow(rows: seq<AugRow>, e: string, i: nat)
    requires i < |Group(rows, e, A)| && i < |Group(rows, e, B)| && AllWindowsAligned(rows, e)
    ensures Group(rows, e, A)[i].pairId == Group(rows, e, B)[i].pairId
  {
    hide Group;
    var ga, gb := Group(rows, e, A), Group(rows, e, B);
    var w := EntityWindows(rows, e, 1, 1)[i];
    assert w == WindowAt(ga, gb, e, i * 1, 1);
    var one: nat := 1;
    assert w in EntityWindows(rows, e, one, one);
    assert Aligned(w);
    assert w.a[0] == ga[i] && w.b[0] == gb[i];
  }

  lemma FillsFirstIsPrefix(rows: seq<AugRow>, e: string, u: View, v: View)
    ensures FillsFirst(rows, e, u, v) <==> PidPrefix(Group(rows, e, u), Group(rows, e, v))
  {
    hide Group, Count, InView, InViewUpTo, PidPrefix;
    var s, t := Group(rows, e, u), Group(rows, e, v);
    GroupAscends(rows, e, u);
    GroupAscends(rows, e, v);
    PidPrefixExact(s, t);
    forall p: int
      ensures Count(s, UpTo(p)) == Count(rows, InViewUpTo(e, u, p))
      ensures Count(t, UpTo(p)) == Count(rows, InViewUpTo(e, v, p))
      ensures |s| == Count(rows, InView(e, u))
    {
      GroupCounts(rows, e, u, p);
      GroupCounts(rows, e, v, p);
    }
    GroupCounts(rows, e, u, 0);
  }

  lemma WholePairsFillFirst(rows: seq<AugRow>, e: string)
    requires WholePairs(rows, e)
    ensures FillsFirst(rows, e, A, B)
  {
    hide Count;
    forall p: int
      ensures Count(rows, InViewUpTo(e, A, p)) == Shorter(Count(rows, InView(e, A)), Count(rows, InViewUpTo(e, B, p)))
    {
      assert Count(rows, InViewUpTo(e, A, p)) <= Count(rows, InView(e, A)) by {
        CountMonotone(rows, InViewUpTo(e, A, p), InView(e, A));
      }
    }
  }

  lemma BlockTail(block: seq<AugRow>, base: SourceRow, id: nat, ppr: nat)
    requires ppr > 0 && IsBlock(block, base, id, ppr)
    ensures var n := |block|;
            && n >= 2
            && block == block[..n-2] + [block[n-2]] + [block[n-1]]
            && IsBlock(block[..n-2], base, id, ppr - 1)
            && IsViewOf(block[n-2], base, id, A) && IsViewOf(block[n-1], base, id, B)
  {
  }

  lemma {:induction false} BlockWhole(block: seq<AugRow>, base: SourceRow, id: nat, ppr: nat, e: string, p: int)
    requires IsBlock(block, base, id, ppr)
    ensures Count(block, InViewUpTo(e, A, p)) == Count(block, InViewUpTo(e, B, p))
  {
    if ppr > 0 {
      hide IsBlock;
      var init, x, y := block[..|block|-2], block[|block|-2], block[|block|-1];
      BlockTail(block, base, id, ppr);
      BlockWhole(init, base, id, ppr - 1, e, p);
      CountTwo(init, x, y, InViewUpTo(e, A, p));
      CountTwo(init, x, y, InViewUpTo(e, B, p));
    }
  }

  lemma CountTwo(s: seq<AugRow>, x: AugRow, y: AugRow, p: AugRow -> bool)
    ensures Count(s + [x] + [y], p) == Count(s, p) + (if p(x) then 1 else 0) + (if p(y) then 1 else 0)
  {
    CountSnoc(s, x, p);
    CountSnoc(s + [x], y, p);
  }

  lemma {:induction false} WrittenPairsAreWhole(out: seq<AugRow>, src: seq<SourceRow>, offset: nat,
                                                ppr: nat, e: string, p: int)
    requires ArePairsOf(out, src, offset, ppr)
    ensures Count(out, InViewUpTo(e, A, p)) == Count(out, InViewUpTo(e, B, p))
    decreases |src|
  {
    hide IsBlock, InViewUpTo;
    if src != [] {
      var n, m := |src| - 1, |out| - 2 * ppr;
      WrittenPairsAreWhole(out[..m], src[..n], offset, ppr, e, p);
      BlockWhole(out[m..], src[n], offset + n, ppr, e, p);
      CountConcat(out[..m], out[m..], InViewUpTo(e, A, p));
      CountConcat(out[..m], out[m..], InViewUpTo(e, B, p));
      assert out == out[..m] + out[m..];
    }
  }

  /** From writer to reader: in a row group that is a written table, or any run of whole tables,
      the rows of every window pair up by pair id, however the timestamps were jittered and for
      any number of pairs per row. */
  lemma {:induction false} ViewsStayAligned(out: seq<AugRow>, src: seq<SourceRow>, offset: nat, ppr: nat, e: string,
                         seqLen: nat, stride: nat, w: WindowPair)
    requires ArePairsOf(out, src, offset, ppr)
    requires stride >= 1 && seqLen >= 1 && w in EntityWindows(out, e, seqLen, stride)
    ensures |w.a| == |w.b| == seqLen
    ensures forall i :: 0 <= i < seqLen ==> w.a[i].pairId == w.b[i].pairId
    ensures forall i :: 0 <= i < seqLen ==> w.a[i] in out && w.a[i].view == A && w.a[i].entityId == e
    ensures forall i :: 0 <= i < seqLen ==> w.b[i] in out && w.b[i].view == B && w.b[i].entityId == e
  {
    hide ArePairsOf, Count, InViewUpTo, FillsFirst, Group, EntityWindows;
    forall p: int ensures Count(out, InViewUpTo(e, A, p)) == Count(out, InViewUpTo(e, B, p)) {
      WrittenPairsAreWhole(out, src, offset, ppr, e, p);
    }
    WholePairsFillFirst(out, e);
    AlignmentExact(out, e);
    assert Aligned(w);
    var start := WindowShape(out, e, seqLen, stride, w);
    GroupMembers(out, e, A);
    GroupMembers(out, e, B);
    forall i | 0 <= i < seqLen
      ensures w.a[i] in Group(out, e, A) && w.b[i] in Group(out, e, B)
    {
      assert w.a[i] == Group(out, e, A)[start + i] && w.b[i] == Group(out, e, B)[start + i];
    }
  }

  lemma GroupMembers(rows: seq<AugRow>, e: string, v: View)
    ensures forall r :: r in Group(rows, e, v) ==> r in rows && r.entityId == e && r.view == v
  {
    RowLeqIsOrder();
    SortSorts(ViewRows(rows, e, v), RowLeq);
    forall r | r in Group(rows, e, v) ensures r in rows && r.entityId == e && r.view == v {
      assert r in multiset(Group(rows, e, v));
      ViewMembers(rows, e, v, r);
    }
  }

  lemma {:induction false} ViewMembers(rows: seq<AugRow>, e: string, v: View, r: AugRow)
    requires r in ViewRows(rows, e, v)
    ensures r in rows && r.entityId == e && r.view == v
  {
    if r in ViewRows(rows[..|rows|-1], e, v) {
      ViewMembers(rows[..|rows|-1], e, v, r);
    }
  }

  /** A row group that starts with the left-over "b" half of a pair and goes on with whole pairs, one
      per source row, misaligns every row of every window of that entity. */
  lemma {:induction false} LeadingHalfMisaligns(half: AugRow, out: seq<AugRow>, src: seq<SourceRow>, offset: nat,
                                                seqLen: nat, stride: nat, w: WindowPair)
    requires ArePairsOf(out, src, offset, 1) && half.view == B && half.pairId < offset
    requires seqLen >= 1 && stride >= 1
    requires w in EntityWindows([half] + out, half.entityId, seqLen, stride)
    ensures |w.a| == |w.b| == seqLen
    ensures forall j :: 0 <= j < seqLen ==> w.b[j].pairId < w.a[j].pairId
  {
    hide ArePairsOf, Count, InViewUpTo, InView, Group, EntityWindows, PairedRows, InWindow, SameIdAt;
    var rows, e := [half] + out, half.entityId;
    var ws := EntityWindows(rows, e, seqLen, stride);
    var i :| 0 <= i < |ws| && ws[i] == w;
    forall j | 0 <= j < seqLen ensures |w.a| == |w.b| == seqLen && w.b[j].pairId < w.a[j].pairId {
      RowOfWindow(rows, e, seqLen, stride, i, j);
      LaterRowIsBehind(half, out, src, offset, StartOf(i, stride) + j);
    }
    RowOfWindow(rows, e, seqLen, stride, i, 0);
  }

  lemma LaterRowIsBehind(half: AugRow, out: seq<AugRow>, src: seq<SourceRow>, offset: nat, r: nat)
    requires ArePairsOf(out, src, offset, 1) && half.view == B && half.pairId < offset
    requires var rows, e := [half] + out, half.entityId;
             r < |Group(rows, e, A)| && r < |Group(rows, e, B)|
    ensures var rows, e := [half] + out, half.entityId;
            Group(rows, e, B)[r].pairId < Group(rows, e, A)[r].pairId
  {
    hide ArePairsOf, Count, InViewUpTo, InView, Group;
    var rows, e := [half] + out, half.entityId;
    var ga, gb := Group(rows, e, A), Group(rows, e, B);
    var p := ga[r].pairId;
    GroupAscends(rows, e, A);
    GroupAscends(rows, e, B);
    AscendingCount(ga, r, p);
    AscendingCount(gb, r, p - 1);
    GroupCounts(rows, e, A, p);
    GroupCounts(rows, e, B, p - 1);
    HalfCounts(half, out, src, offset, p);
    HalfCounts(half, out, src, offset, p - 1);
    GroupMembers(rows, e, A);
    assert ga[r] in ga;
    assert p >= offset by { LaterIds(half, out, src, offset, ga[r]); }
    OneRowPerId(out, src, offset, 1, e, p);
  }

  /** View "a" of the group is that of the whole pairs; view "b" has the half in addition. */
  lemma HalfCounts(half: AugRow, out: seq<AugRow>, src: seq<SourceRow>, offset: nat, p: int)
    requires ArePairsOf(out, src, offset, 1) && half.view == B
    ensures var rows, e := [half] + out, half.entityId;
            && Count(rows, InViewUpTo(e, A, p)) == Count(out, InViewUpTo(e, A, p))
            && Count(rows, InViewUpTo(e, B, p)) ==
               Count(out, InViewUpTo(e, A, p)) + (if half.pairId <= p then 1 else 0)
  {
    hide ArePairsOf;
    var e := half.entityId;
    WrittenPairsAreWhole(out, src, offset, 1, e, p);
    CountConcat([half], out, InViewUpTo(e, A, p));
    CountConcat([half], out, InViewUpTo(e, B, p));
    assert [half][..0] == [];
  }

  lemma LaterIds(half: AugRow, out: seq<AugRow>, src: seq<SourceRow>, offset: nat, r: AugRow)
    requires ArePairsOf(out, src, offset, 1) && half.view == B && r in [half] + out && r.view == A
    ensures r.pairId >= offset
  {
    hide ArePairsOf, Count;
    assert r in out;
    if r.pairId < offset {
      EveryIdInBothViews(out, src, offset, 1, r.pairId, A);
      CountPositive(out, r, HasId(r.pairId, A));
    }
  }

  lemma {:induction false} CountPositive<T>(s: seq<T>, x: T, p: T -> bool)
    requires x in s && p(x)
    ensures Count(s, p) > 0
  {
    if s[|s|-1] != x {
      CountPositive(s[..|s|-1], x, p);
    }
  }

  /** Each step of the id admits at most the rows of that id. */
  lemma OneRowPerId(out: seq<AugRow>, src: seq<SourceRow>, offset: nat, ppr: nat, e: string, p: nat)
    requires ArePairsOf(out, src, offset, ppr)
    ensures Count(out, InViewUpTo(e, A, p)) <= Count(out, InViewUpTo(e, A, p - 1)) + ppr
  {
    hide ArePairsOf;
    EveryIdInBothViews(out, src, offset, ppr, p, A);
    CountUnion(out, InViewUpTo(e, A, p), InViewUpTo(e, A, p - 1), HasId(p, A));
  }

  lemma {:induction false} CountUnion<T(!new)>(s: seq<T>, p: T -> bool, q: T -> bool, r: T -> bool)
    requires forall x :: p(x) ==> q(x) || r(x)
    ensures Count(s, p) <= Count(s, q) + Count(s, r)
  {
    if s != [] {
      CountUnion(s[..|s|-1], p, q, r);
    }
  }

  /** Cutting a pair does the earlier row group no harm: whole pairs followed by the "a" half of a
      later pair stay aligned. */
  lemma {:induction false} TrailingHalfStaysAligned(half: AugRow, out: seq<AugRow>, src: seq<SourceRow>, offset: nat,
                                                    ppr: nat, e: string, seqLen: nat, stride: nat, w: WindowPair)
    requires ArePairsOf(out, src, offset, ppr) && half.view == A && half.pairId >= offset + |src|
    requires seqLen >= 1 && stride >= 1 && w in EntityWindows(out + [half], e, seqLen, stride)
    ensures Aligned(w)
  {
    hide ArePairsOf, Count, FillsFirst, EntityWindows;
    var rows := out + [half];
    assert FillsFirst(rows, e, B, A) by {
      forall p: int
        ensures Count(rows, InViewUpTo(e, B, p)) ==
                Shorter(Count(rows, InView(e, B)), Count(rows, InViewUpTo(e, A, p)))
      {
        TrailingCounts(half, out, src, offset, ppr, e, p);
      }
      FillsFirstDef(rows, e, B, A);
    }
    AlignmentExact(rows, e);
  }

  lemma FillsFirstDef(rows: seq<AugRow>, e: string, u: View, v: View)
    requires forall p: int ::
               Count(rows, InViewUpTo(e, u, p)) == Shorter(Count(rows, InView(e, u)), Count(rows, InViewUpTo(e, v, p)))
    ensures FillsFirst(rows, e, u, v)
  {
  }

  lemma TrailingCounts(half: AugRow, out: seq<AugRow>, src: seq<SourceRow>, offset: nat, ppr: nat, e: string, p: int)
    requires ArePairsOf(out, src, offset, ppr) && half.view == A && half.pairId >= offset + |src|
    ensures var rows := out + [half];
            Count(rows, InViewUpTo(e, B, p)) == Shorter(Count(rows, InView(e, B)), Count(rows, InViewUpTo(e, A, p)))
  {
    hide ArePairsOf, Count;
    var rows := out + [half];
    WrittenPairsAreWhole(out, src, offset, ppr, e, p);
    CountSnoc(out, half, InViewUpTo(e, A, p));
    CountSnoc(out, half, InViewUpTo(e, B, p));
    CountSnoc(out, half, InView(e, B));
    CountMonotone(out, InViewUpTo(e, B, p), InView(e, B));
    if half.pairId <= p {
      forall r | r in out ensures r.pairId <= p {
        if r.pairId > p {
          EveryIdInBothViews(out, src, offset, ppr, r.pairId, r.view);
          CountPositive(out, r, HasId(r.pairId, r.view));
        }
      }
      CountSame(out, InViewUpTo(e, B, p), InView(e, B));
    }
  }

  lemma {:induction false} CountSame<T>(s: seq<T>, p: T -> bool, q: T -> bool)
    requires forall x :: x in s ==> p(x) == q(x)
    ensures Count(s, p) == Count(s, q)
  {
    if s != [] {
      CountSame(s[..|s|-1], p, q);
    }
  }

  /** The smallest such group, against the condition for all lengths and strides. */
  lemma {:induction false} SplitPairMisaligns()
    ensures var rows := [AugRow(0, B, "x", "m", 0), AugRow(1, A, "x", "m", 0), AugRow(1, B, "x", "m", 0)];
            !FillsFirst(rows, "x", A, B) && !FillsFirst(rows, "x", B, A)
  {
    var r0, r1, r2 := AugRow(0, B, "x", "m", 0), AugRow(1, A, "x", "m", 0), AugRow(1, B, "x", "m", 0);
    var rows := [r0, r1, r2];
    assert rows[..2] == [r0, r1] && rows[..2][..1] == [r0] && rows[..2][..1][..0] == [];
    forall q: AugRow -> bool
      ensures Count(rows, q) == (if q(r0) then 1 else 0) + (if q(r1) then 1 else 0) + (if q(r2) then 1 else 0)
    {
      assert Count(rows[..2][..1], q) == if q(r0) then 1 else 0;
      assert Count(rows[..2], q) == Count(rows[..2][..1], q) + if q(r1) then 1 else 0;
    }
    assert Count(rows, InViewUpTo("x", A, 0)) == 0 && Count(rows, InViewUpTo("x", B, 0)) == 1;
    assert Count(rows, InView("x", A)) == 1 && Count(rows, InView("x", B)) == 2;
  }

  /** Windows leave fewer than `stride` trailing rows uncovered. */
  lemma {:induction false} WindowsReachEnd(n: nat, seqLen: nat, stride: nat)
    requires stride >= 1 && seqLen <= n
    ensures var k := NumWindows(n, seqLen, stride);
            k >= 1 && n - stride < (k - 1) * stride + seqLen <= n
  {
    var m := (n - seqLen) / stride;
    assert n - seqLen == m * stride + (n - seqLen) % stride;
  }

  /** With a stride of at most the window length there are no gaps before those. */
  lemma {:induction false} RowCovered(n: nat, seqLen: nat, stride: nat, r: nat) returns (i: nat)
    requires 1 <= stride <= seqLen <= n
    requires r < (NumWindows(n, seqLen, stride) - 1) * stride + seqLen
    ensures i < NumWindows(n, seqLen, stride) && i * stride <= r < i * stride + seqLen
  {
    var k, q := NumWindows(n, seqLen, stride), r / stride;
    assert r == q * stride + r % stride;
    if q < k {
      i := q;
    } else {
      i := k - 1;
      Smaller(k - 1, q, stride);
    }
  }
}
