/** An exact vector index with parallel metadata (phase1/embedding_space/faiss_indexer.py). */
module EpisodeIndex {
  import opened Wrappers
  import opened Vectors
  import opened Sorting

  const ENC_EMBED_DIM: nat := 128
  const FAISS_PADDING_DISTANCE := 340282346638528859811704183484516925440.0

  datatype Metadata = Metadata(entityId: string, timestamp: Option<string>, cloudProvider: string,
                               severityLabel: Option<string>)

  datatype SearchError = WrongWidth | LengthMismatch | NotTrained | NonPositiveK | ExclusionListTooShort

  predicate Width(vs: seq<Vector>) {
    forall v :: v in vs ==> |v| == ENC_EMBED_DIM
  }

  /** metadata[i] describes the vector at internal id i. */
  datatype Index = Index(vectors: seq<Vector>, metadata: seq<Metadata>) {
    ghost predicate Valid() {
      |vectors| == |metadata| && Width(vectors)
    }
  }

  datatype Hit = Hit(id: int, distance: real)

  predicate NearerOrTied(h: Hit, g: Hit) {
    h.distance <= g.distance
  }

  function AllHits(ix: Index, q: Vector): (hs: seq<Hit>)
    requires Width(ix.vectors) && |q| == ENC_EMBED_DIM
    ensures |hs| == |ix.vectors|
    ensures forall i :: 0 <= i < |hs| ==> hs[i] == Hit(i, SquaredDistance(q, ix.vectors[i]))
  {
    seq(|ix.vectors|, i requires 0 <= i < |ix.vectors| => Hit(i, SquaredDistance(q, ix.vectors[i])))
  }

  /** All ids, nearest first; ids break ties because the sort is stable. */
  function Ranked(ix: Index, q: Vector): (hs: seq<Hit>)
    requires Width(ix.vectors) && |q| == ENC_EMBED_DIM
    ensures |hs| == |ix.vectors|
  {
    Sort(AllHits(ix, q), NearerOrTied)
  }

  datatype Neighbour = Neighbour(id: int, distance: real, metadata: Option<Metadata>)

  const PADDING := Neighbour(-1, FAISS_PADDING_DISTANCE, None)

  /** The k nearest, padded with id -1 when the index holds fewer. */
  function SearchTopK(ix: Index, q: Vector, k: int): (r: Result<seq<Neighbour>, SearchError>)
    requires ix.Valid()
    ensures r.Ok? ==> |r.value| == k
  {
    if |q| != ENC_EMBED_DIM then Err(WrongWidth)
    else if k <= 0 then Err(NonPositiveK)
    else
      var ranked := Ranked(ix, q);
      Ok(seq(k, i requires 0 <= i < k =>
           if i < |ranked| then NeighbourOf(ix, ranked[i]) else PADDING))
  }

  function NeighbourOf(ix: Index, h: Hit): Neighbour {
    Neighbour(h.id, h.distance, if 0 <= h.id < |ix.metadata| then Some(ix.metadata[h.id]) else None)
  }

  lemma RankedIsOrder()
    ensures IsOrder(NearerOrTied)
  {
  }

  /** The ranking lists every vector exactly once with its own distance, nearest first. */
  lemma {:induction false} RankedExact(ix: Index, q: Vector)
    requires ix.Valid() && |q| == ENC_EMBED_DIM
    ensures Sorted(Ranked(ix, q), NearerOrTied)
    ensures forall h :: h in Ranked(ix, q) ==>
              0 <= h.id < |ix.vectors| && h.distance == SquaredDistance(q, ix.vectors[h.id])
    ensures forall i, j :: 0 <= i < j < |Ranked(ix, q)| ==> Ranked(ix, q)[i].id != Ranked(ix, q)[j].id
  {
    hide SquaredDistance, Sort;
    var all, ranked := AllHits(ix, q), Ranked(ix, q);
    RankedIsOrder();
    SortSorts(all, NearerOrTied);
    forall h | h in ranked ensures h in all { assert h in multiset(ranked); }
    forall i, j | 0 <= i < j < |ranked| ensures ranked[i].id != ranked[j].id {
      if ranked[i].id == ranked[j].id {
        assert ranked[i] in ranked && ranked[j] in ranked;
        assert ranked[i] == ranked[j];
        TwiceInMultiset(ranked, i, j);
        OnceInMultiset(all, ranked[i]);
      }
    }
  }

  /** The answer to a query, position by position: the k nearest with their own distance and metadata, then
      padding; a query of the wrong width or for fewer than one neighbour is rejected. */
  lemma {:induction false} SearchTopKExact(ix: Index, q: Vector, k: int)
    requires ix.Valid()
    ensures SearchTopK(ix, q, k).Ok? <==> |q| == 128 && k >= 1
    ensures SearchTopK(ix, q, k).Ok? ==>
              var row, ranked := SearchTopK(ix, q, k).value, Ranked(ix, q);
              && |row| == k && |ranked| == |ix.vectors|
              && (forall i :: 0 <= i < k && i < |ranked| ==>
                    && 0 <= ranked[i].id < |ix.metadata|
                    && row[i] == Neighbour(ranked[i].id, ranked[i].distance, Some(ix.metadata[ranked[i].id])))
              && (forall i :: |ranked| <= i < k ==> row[i].id == -1 && row[i].metadata == None)
  {
    hide SquaredDistance, Ranked;
    if |q| == ENC_EMBED_DIM {
      RankedExact(ix, q);
      assert forall i :: 0 <= i < |Ranked(ix, q)| ==> Ranked(ix, q)[i] in Ranked(ix, q);
    }
  }

  lemma TwiceInMultiset<T>(s: seq<T>, i: nat, j: nat)
    requires i < j < |s| && s[i] == s[j]
    ensures multiset(s)[s[i]] >= 2
  {
    assert s == s[..j] + [s[j]] + s[j+1..];
    assert s[..j][i] == s[i];
    assert s[i] in multiset(s[..j]);
  }

  lemma {:induction false} OnceInMultiset<T>(s: seq<T>, x: T)
    requires forall i, j :: 0 <= i < j < |s| ==> s[i] != s[j]
    ensures multiset(s)[x] <= 1
  {
    if s != [] {
      OnceInMultiset(s[..|s|-1], x);
      assert s == s[..|s|-1] + [s[|s|-1]];
      if x == s[|s|-1] {
        assert x !in s[..|s|-1];
      }
    }
  }

  /** The mutable store: vectors and metadata only ever grow, together. */
  class FaissIndexer {
    const trained: bool
    var index: Index

    ghost predicate Valid()
      reads this
    {
      index.Valid()
    }

    constructor (trained: bool)
      ensures Valid() && index == Index([], []) && this.trained == trained
    {
      this.trained := trained;
      index := Index([], []);
    }

    /** Appends a batch, or rejects it whole; an id once given keeps its vector and metadata. */
    method Add(embeddings: seq<Vector>, metadata: seq<Metadata>) returns (r: Result<nat, SearchError>)
      requires Valid()
      modifies this
      ensures Valid()
      ensures r == if !Width(embeddings) then Err(WrongWidth)
                   else if |embeddings| != |metadata| then Err(LengthMismatch)
                   else if !trained then Err(NotTrained)
                   else Ok(|embeddings|)
      ensures r.Err? ==> index == old(index)
      ensures r.Ok? ==>
                && index.vectors == old(index.vectors) + embeddings
                && index.metadata == old(index.metadata) + metadata
    {
      if !Width(embeddings) {
        return Err(WrongWidth);
      }
      if |embeddings| != |metadata| {
        return Err(LengthMismatch);
      }
      if !trained {
        return Err(NotTrained);
      }
      index := Index(index.vectors + embeddings, index.metadata + metadata);
      r := Ok(|embeddings|);
    }
  }
}
