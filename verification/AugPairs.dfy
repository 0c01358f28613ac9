/** The writer of augmented pairs: row groups are cut into chunks, every source row becomes an
    "a" and a "b" view, and pair ids run through the whole file (generate_aug_pairs.py). */
module AugPairs {
  import opened Lists
  import opened Sorting

  datatype View = A | B

  datatype SourceRow = SourceRow(entityId: string, metricName: string, timestamp: int)

  /** The columns of an output row that the reader's alignment depends on. */
  datatype AugRow = AugRow(pairId: nat, view: View, entityId: string, metricName: string, timestamp: int)

  /** A view of a source row: jitter may move the timestamp anywhere, entity and metric stay. */
  predicate IsViewOf(r: AugRow, base: SourceRow, pairId: nat, view: View) {
    r.pairId == pairId && r.view == view && r.entityId == base.entityId && r.metricName == base.metricName
  }

  /** The rows of one source row: pairsPerRow times an "a" followed by a "b". */
  ghost predicate IsBlock(block: seq<AugRow>, base: SourceRow, pairId: nat, pairsPerRow: nat) {
    |block| == 2 * pairsPerRow
    && forall i :: 0 <= i < |block| ==> IsViewOf(block[i], base, pairId, if i % 2 == 0 then A else B)
  }

  /** `out` is the blocks of the source rows in order, with ids counted from `offset`. */
  ghost predicate ArePairsOf(out: seq<AugRow>, src: seq<SourceRow>, offset: nat, pairsPerRow: nat)
    decreases |src|
  {
    if src == [] then out == []
    else
      var n, w := |src| - 1, 2 * pairsPerRow;
      && |out| >= w
      && ArePairsOf(out[..|out|-w], src[..n], offset, pairsPerRow)
      && IsBlock(out[|out|-w..], src[n], offset + n, pairsPerRow)
  }

  lemma PairsSnoc(out: seq<AugRow>, block: seq<AugRow>, src: seq<SourceRow>, base: SourceRow, offset: nat, ppr: nat)
    requires ArePairsOf(out, src, offset, ppr) && IsBlock(block, base, offset + |src|, ppr)
    ensures ArePairsOf(out + block, src + [base], offset, ppr)
  {
    hide IsBlock;
    assert |block| == 2 * ppr by { BlockLength(block, base, offset + |src|, ppr); }
    assert (src + [base])[..|src|] == src;
    assert (out + block)[..|out|] == out && (out + block)[|out|..] == block;
  }

  lemma BlockLength(block: seq<AugRow>, base: SourceRow, pairId: nat, ppr: nat)
    requires IsBlock(block, base, pairId, ppr)
    ensures |block| == 2 * ppr
  {
  }

  lemma {:induction false} PairsConcat(out1: seq<AugRow>, out2: seq<AugRow>, src1: seq<SourceRow>,
                                       src2: seq<SourceRow>, offset: nat, ppr: nat)
    requires ArePairsOf(out1, src1, offset, ppr) && ArePairsOf(out2, src2, offset + |src1|, ppr)
    ensures ArePairsOf(out1 + out2, src1 + src2, offset, ppr)
    decreases |src2|
  {
    hide IsBlock;
    if src2 == [] {
      assert out1 + out2 == out1 && src1 + src2 == src1;
    } else {
      var n, m := |src2| - 1, |out2| - 2 * ppr;
      PairsConcat(out1, out2[..m], src1, src2[..n], offset, ppr);
      PairsSnoc(out1 + out2[..m], out2[m..], src1 + src2[..n], src2[n], offset, ppr);
      assert out1 + out2 == (out1 + out2[..m]) + out2[m..];
      assert src1 + src2 == (src1 + src2[..n]) + [src2[n]];
    }
  }

  method AugmentBatch(chunk: seq<SourceRow>, globalRowOffset: nat, pairsPerRow: nat) returns (rowsOut: seq<AugRow>)
    ensures ArePairsOf(rowsOut, chunk, globalRowOffset, pairsPerRow)
  {
    rowsOut := [];
    assert chunk[..0] == [];
    for localIdx := 0 to |chunk|
      invariant ArePairsOf(rowsOut, chunk[..localIdx], globalRowOffset, pairsPerRow)
    {
      hide ArePairsOf;
      var base, pairId := chunk[localIdx], globalRowOffset + localIdx;
      var block: seq<AugRow> := [];
      for p := 0 to pairsPerRow
        invariant IsBlock(block, base, pairId, p)
      {
        var jitterA: int, jitterB: int := *, *;
        block := block + [AugRow(pairId, A, base.entityId, base.metricName, base.timestamp + jitterA)];
        block := block + [AugRow(pairId, B, base.entityId, base.metricName, base.timestamp + jitterB)];
      }
      PairsSnoc(rowsOut, block, chunk[..localIdx], base, globalRowOffset, pairsPerRow);
      rowsOut := rowsOut + block;
      assert chunk[..localIdx+1] == chunk[..localIdx] + [base];
    }
    assert chunk[..|chunk|] == chunk;
  }

  /** The chunks of all row groups, in file order: within a group consecutive runs of `batchSize` rows, the last
      one possibly shorter. */
  function SourceChunks(rowGroups: seq<seq<SourceRow>>, batchSize: nat): seq<seq<SourceRow>>
    requires batchSize >= 1
  {
    if rowGroups == [] then []
    else SourceChunks(rowGroups[..|rowGroups|-1], batchSize) + Chunks(rowGroups[|rowGroups|-1], batchSize)
  }

  lemma SourceChunksSnoc(rowGroups: seq<seq<SourceRow>>, group: seq<SourceRow>, batchSize: nat)
    requires batchSize >= 1
    ensures SourceChunks(rowGroups + [group], batchSize) ==
            SourceChunks(rowGroups, batchSize) + Chunks(group, batchSize)
  {
    assert (rowGroups + [group])[..|rowGroups|] == rowGroups;
  }

  /** Put together the chunks are the rows of the file; none is empty or longer than the batch size. */
  lemma {:induction false} SourceChunksExact(rowGroups: seq<seq<SourceRow>>, batchSize: nat)
    requires batchSize >= 1
    ensures Flatten(SourceChunks(rowGroups, batchSize)) == Flatten(rowGroups)
    ensures forall c :: c in SourceChunks(rowGroups, batchSize) ==> 1 <= |c| <= batchSize
  {
    if rowGroups != [] {
      var init, last := rowGroups[..|rowGroups|-1], rowGroups[|rowGroups|-1];
      SourceChunksExact(init, batchSize);
      ChunksExact(last, batchSize);
      FlattenConcat(SourceChunks(init, batchSize), Chunks(last, batchSize));
    }
  }

  /** One table per chunk, in order: the pairs of that chunk, with ids continuing where the chunks before it
      ended. */
  ghost predicate AreTables(tables: seq<seq<AugRow>>, chunks: seq<seq<SourceRow>>, pairsPerRow: nat) {
    |tables| == |chunks|
    && forall t :: 0 <= t < |tables| ==> ArePairsOf(tables[t], chunks[t], |Flatten(chunks[..t])|, pairsPerRow)
  }

  lemma TablesSnoc(tables: seq<seq<AugRow>>, chunks: seq<seq<SourceRow>>, table: seq<AugRow>, chunk: seq<SourceRow>,
                   ppr: nat)
    requires AreTables(tables, chunks, ppr) && ArePairsOf(table, chunk, |Flatten(chunks)|, ppr)
    ensures AreTables(tables + [table], chunks + [chunk], ppr)
  {
    hide ArePairsOf, Flatten;
    var ts, cs := tables + [table], chunks + [chunk];
    forall t | 0 <= t < |ts| ensures ArePairsOf(ts[t], cs[t], |Flatten(cs[..t])|, ppr) {
      assert cs[..t] == chunks[..t];
      assert chunks[..|chunks|] == chunks;
    }
  }

  lemma TablesInit(tables: seq<seq<AugRow>>, chunks: seq<seq<SourceRow>>, ppr: nat)
    requires AreTables(tables, chunks, ppr) && tables != []
    ensures var n := |tables| - 1;
            && AreTables(tables[..n], chunks[..n], ppr)
            && ArePairsOf(tables[n], chunks[n], |Flatten(chunks[..n])|, ppr)
  {
    hide ArePairsOf, Flatten;
    var n := |tables| - 1;
    forall t | 0 <= t < n ensures ArePairsOf(tables[..n][t], chunks[..n][t], |Flatten(chunks[..n][..t])|, ppr) {
      assert chunks[..n][..t] == chunks[..t];
    }
  }

  lemma {:induction false} TablesArePairs(tables: seq<seq<AugRow>>, chunks: seq<seq<SourceRow>>, ppr: nat)
    requires AreTables(tables, chunks, ppr)
    ensures ArePairsOf(Flatten(tables), Flatten(chunks), 0, ppr)
  {
    if tables != [] {
      hide ArePairsOf, AreTables;
      var n := |tables| - 1;
      SameNumber(tables, chunks, ppr);
      TablesInit(tables, chunks, ppr);
      TablesArePairs(tables[..n], chunks[..n], ppr);
      PairsConcat(Flatten(tables[..n]), tables[n], Flatten(chunks[..n]), chunks[n], 0, ppr);
    }
  }

  lemma SameNumber(tables: seq<seq<AugRow>>, chunks: seq<seq<SourceRow>>, ppr: nat)
    requires AreTables(tables, chunks, ppr)
    ensures |tables| == |chunks|
  {
  }

  /** Streams the row groups in chunks: one table per chunk, holding that chunk's pairs; together the tables are
      the pairs of all rows of the file, ids 0 to total - 1, whatever the layout and the batch size. */
  method GeneratePairs(rowGroups: seq<seq<SourceRow>>, batchSize: nat, pairsPerRow: nat)
    returns (tables: seq<seq<AugRow>>, rowsWritten: nat)
    requires batchSize >= 1
    ensures AreTables(tables, SourceChunks(rowGroups, batchSize), pairsPerRow)
    ensures ArePairsOf(Flatten(tables), Flatten(rowGroups), 0, pairsPerRow)
    ensures rowsWritten == |Flatten(tables)| == |Flatten(rowGroups)| * (2 * pairsPerRow)
  {
    hide AreTables, ArePairsOf, Chunks, SourceChunks, Flatten, ChunkStart;
    tables, rowsWritten := [], 0;
    var globalRowOffset := 0;
    ghost var chunks: seq<seq<SourceRow>> := [];
    assert rowGroups[..0] == [];
    NothingStreamed(batchSize, pairsPerRow);
    for rg := 0 to |rowGroups|
      invariant globalRowOffset == |Flatten(chunks)|
      invariant chunks == SourceChunks(rowGroups[..rg], batchSize)
      invariant AreTables(tables, chunks, pairsPerRow)
      invariant rowsWritten == |Flatten(tables)|
    {
      var df := rowGroups[rg];
      ghost var own, earlier := Chunks(df, batchSize), chunks;
      ChunksAt(df, batchSize);
      var nChunks := (|df| + batchSize - 1) / batchSize;
      CeilDiv(|df|, batchSize, |own|);
      assert earlier + own[..0] == earlier;
      for c := 0 to nChunks
        invariant chunks == earlier + own[..c]
        invariant globalRowOffset == |Flatten(chunks)|
        invariant AreTables(tables, chunks, pairsPerRow)
        invariant rowsWritten == |Flatten(tables)|
      {
        var chunkStart := c * batchSize;
        ChunkStartIs(c, batchSize);
        var chunkEnd := if chunkStart + batchSize < |df| then chunkStart + batchSize else |df|;
        var chunk := df[chunkStart..chunkEnd];
        var paired := AugmentBatch(chunk, globalRowOffset, pairsPerRow);
        TablesSnoc(tables, chunks, paired, chunk, pairsPerRow);
        FlattenSnoc(tables, paired);
        FlattenSnoc(chunks, chunk);
        tables := tables + [paired];
        chunks := chunks + [chunk];
        rowsWritten := rowsWritten + |paired|;
        globalRowOffset := globalRowOffset + (chunkEnd - chunkStart);
        assert earlier + own[..c+1] == (earlier + own[..c]) + [own[c]];
      }
      SourceChunksSnoc(rowGroups[..rg], df, batchSize);
      assert own[..|own|] == own && rowGroups[..rg+1] == rowGroups[..rg] + [df];
    }
    assert rowGroups[..|rowGroups|] == rowGroups;
    TablesArePairs(tables, chunks, pairsPerRow);
    SourceChunksExact(rowGroups, batchSize);
    PairsLength(Flatten(tables), Flatten(rowGroups), 0, pairsPerRow);
  }

  lemma NothingStreamed(batchSize: nat, ppr: nat)
    requires batchSize >= 1
    ensures AreTables([], [], ppr) && SourceChunks([], batchSize) == []
    ensures Flatten<SourceRow>([]) == [] && Flatten<AugRow>([]) == []
  {
  }

  lemma ChunkStartIs(c: nat, n: nat)
    ensures ChunkStart(c, n) == c * n
  {
  }

  /** The number of chunks is the quotient rounded up. */
  lemma CeilDiv(n: nat, b: nat, chunks: nat)
    requires b >= 1 && n <= ChunkStart(chunks, b) < n + b
    ensures chunks == (n + b - 1) / b
  {
    var k := (n + b - 1) / b;
    assert n + b - 1 == k * b + (n + b - 1) % b;
    if k < chunks {
      StepBelow(k, chunks, b);
    } else if chunks < k {
      StepBelow(chunks, k, b);
    }
  }

  lemma Smaller(x: nat, y: nat, w: nat)
    requires x <= y
    ensures x * w <= y * w
  {
    assert y * w == x * w + (y - x) * w;
  }

  lemma StepBelow(x: nat, y: nat, w: nat)
    requires x < y
    ensures x * w + w <= y * w
  {
    Smaller(x + 1, y, w);
    assert (x + 1) * w == x * w + w;
  }

  lemma {:induction false} PairsLength(out: seq<AugRow>, src: seq<SourceRow>, offset: nat, ppr: nat)
    requires ArePairsOf(out, src, offset, ppr)
    ensures |out| == |src| * (2 * ppr)
    decreases |src|
  {
    hide IsBlock;
    if src != [] {
      var n, w := |src| - 1, 2 * ppr;
      PairsLength(out[..|out|-w], src[..n], offset, ppr);
      assert |src| * w == n * w + w;
    }
  }

  // ----- what that says about ids and views -----

  function HasId(pairId: nat, view: View): AugRow -> bool {
    (r: AugRow) => r.pairId == pairId && r.view == view
  }

  lemma {:induction false} CountBlock(block: seq<AugRow>, base: SourceRow, pairId: nat, ppr: nat, id: nat, view: View)
    requires IsBlock(block, base, pairId, ppr)
    ensures Count(block, HasId(id, view)) == if id == pairId then ppr else 0
  {
    if ppr > 0 {
      var n := |block|;
      CountBlock(block[..n-2], base, pairId, ppr - 1, id, view);
      assert block == block[..n-2] + [block[n-2]] + [block[n-1]];
      CountSnoc(block[..n-2], block[n-2], HasId(id, view));
      CountSnoc(block[..n-2] + [block[n-2]], block[n-1], HasId(id, view));
    }
  }

  /** Where source row n's block starts among the written rows. */
  function BlockStart(n: nat, pairsPerRow: nat): nat {
    n * (2 * pairsPerRow)
  }

  /** The written rows by position: row j of source row n's block carries the id offset + n, is an "a" view for
      even j and a "b" view for odd j, and keeps the entity and the metric of its source row. */
  lemma {:induction false} RowsExact(out: seq<AugRow>, src: seq<SourceRow>, offset: nat, ppr: nat, n: nat, j: nat)
    requires ArePairsOf(out, src, offset, ppr) && n < |src| && j < 2 * ppr
    ensures |out| == BlockStart(|src|, ppr) && BlockStart(n, ppr) + j < |out|
    ensures var r := out[BlockStart(n, ppr) + j];
            && r.pairId == offset + n
            && r.view == (if j % 2 == 0 then A else B)
            && r.entityId == src[n].entityId && r.metricName == src[n].metricName
    decreases |src|
  {
    hide BlockStart, ArePairsOf, IsBlock;
    var last, m := |src| - 1, |out| - 2 * ppr;
    PairsLength(out, src, offset, ppr);
    BlockStarts(|src|, ppr);
    BlockStarts(last, ppr);
    LastBlock(out, src, offset, ppr);
    if n < last {
      RowsExact(out[..m], src[..last], offset, ppr, n, j);
    } else {
      BlockRow(out[m..], src[n], offset + n, ppr, j);
    }
  }

  lemma LastBlock(out: seq<AugRow>, src: seq<SourceRow>, offset: nat, ppr: nat)
    requires ArePairsOf(out, src, offset, ppr) && src != []
    ensures var last, m := |src| - 1, |out| - 2 * ppr;
            && m >= 0
            && ArePairsOf(out[..m], src[..last], offset, ppr)
            && IsBlock(out[m..], src[last], offset + last, ppr)
            && |src| * (2 * ppr) == last * (2 * ppr) + 2 * ppr
  {
    hide IsBlock;
  }

  lemma BlockRow(block: seq<AugRow>, base: SourceRow, pairId: nat, ppr: nat, j: nat)
    requires IsBlock(block, base, pairId, ppr) && j < 2 * ppr
    ensures |block| == 2 * ppr && IsViewOf(block[j], base, pairId, if j % 2 == 0 then A else B)
  {
  }

  lemma BlockStarts(n: nat, ppr: nat)
    ensures BlockStart(n, ppr) == n * (2 * ppr)
  {
  }

  /** Every pair id of the file, and no other, is written pairsPerRow times in each view. */
  lemma {:induction false} EveryIdInBothViews(out: seq<AugRow>, src: seq<SourceRow>, offset: nat, ppr: nat,
                                              id: nat, view: View)
    requires ArePairsOf(out, src, offset, ppr)
    ensures Count(out, HasId(id, view)) == if offset <= id < offset + |src| then ppr else 0
    decreases |src|
  {
    hide IsBlock;
    if src != [] {
      var n, m := |src| - 1, |out| - 2 * ppr;
      EveryIdInBothViews(out[..m], src[..n], offset, ppr, id, view);
      CountBlock(out[m..], src[n], offset + n, ppr, id, view);
      CountConcat(out[..m], out[m..], HasId(id, view));
      assert out == out[..m] + out[m..];
    }
  }
}
