/** Slicing and flattening of lists, as Python does them. */
module Lists {

  function Flatten<T>(groups: seq<seq<T>>): seq<T> {
    if groups == [] then [] else Flatten(groups[..|groups|-1]) + groups[|groups|-1]
  }

  lemma FlattenSnoc<T>(groups: seq<seq<T>>, g: seq<T>)
    ensures Flatten(groups + [g]) == Flatten(groups) + g
  {
    assert (groups + [g])[..|groups|] == groups;
  }

  lemma {:induction false} FlattenConcat<T>(a: seq<seq<T>>, b: seq<seq<T>>)
    ensures Flatten(a + b) == Flatten(a) + Flatten(b)
  {
    if b == [] {
      assert a + b == a;
    } else {
      FlattenConcat(a, b[..|b|-1]);
      assert (a + b)[..|a + b|-1] == a + b[..|b|-1];
    }
  }

  lemma FlattenSingle<T>(g: seq<T>)
    ensures Flatten([g]) == g
  {
    FlattenSnoc([], g);
    assert [] + [g] == [g];
  }

  /** s[-k:]. For k = 0 that is the whole list, for k < 0 it drops the first -k elements. */
  function Suffix<T>(s: seq<T>, k: int): seq<T> {
    if k > 0 then (if k >= |s| then s else s[|s|-k..])
    else if k == 0 then s
    else if -k >= |s| then [] else s[-k..]
  }

  /** By position: for k > 0 the last k elements (all of a shorter list), for k = 0 all of them, and for
      k < 0 those from position -k on. */
  lemma {:induction false} SuffixExact<T>(s: seq<T>, k: int)
    ensures var r := Suffix(s, k);
            && |r| == (if 1 <= k < |s| then k else if k >= 0 then |s| else if -k < |s| then |s| + k else 0)
            && forall j :: 0 <= j < |r| ==> r[j] == s[|s| - |r| + j]
  {
  }

  /** Consecutive slices of length n; only the last may be shorter. */
  function Chunks<T>(s: seq<T>, n: nat): seq<seq<T>>
    requires n >= 1
  {
    if s == [] then []
    else if |s| <= n then [s]
    else [s[..n]] + Chunks(s[n..], n)
  }

  lemma {:induction false} ChunksFlatten<T>(s: seq<T>, n: nat)
    requires n >= 1
    ensures Flatten(Chunks(s, n)) == s
  {
    hide Flatten;
    if |s| > n {
      ChunksFlatten(s[n..], n);
      FlattenConcat([s[..n]], Chunks(s[n..], n));
      FlattenSingle(s[..n]);
      assert s == s[..n] + s[n..];
    } else if s != [] {
      FlattenSingle(s);
    } else {
      FlattenNone<T>();
    }
  }

  lemma FlattenNone<T>()
    ensures Flatten<T>([]) == []
  {
  }

  /** The chunks put together are the list; none is empty and only the last may be short. */
  lemma {:induction false} ChunksExact<T>(s: seq<T>, n: nat)
    requires n >= 1
    ensures var cs := Chunks(s, n);
            && Flatten(cs) == s
            && (cs == [] <==> s == [])
            && (forall i :: 0 <= i < |cs| ==> 1 <= |cs[i]| <= n)
            && (forall i :: 0 <= i < |cs| - 1 ==> |cs[i]| == n)
            && (s != [] ==> cs[0] == s[..if |s| < n then |s| else n])
  {
    hide Flatten;
    ChunksFlatten(s, n);
    if |s| > n {
      ChunksExact(s[n..], n);
    } else if s != [] {
      assert s[..|s|] == s;
    }
  }

  /** Where the c-th chunk starts. */
  function ChunkStart(c: nat, n: nat): nat {
    c * n
  }

  lemma ChunkStartNext(c: nat, n: nat)
    ensures ChunkStart(0, n) == 0 && ChunkStart(c + 1, n) == ChunkStart(c, n) + n
  {
  }

  lemma {:induction false} ChunkCount<T>(s: seq<T>, n: nat)
    requires n >= 1
    ensures |s| <= ChunkStart(|Chunks(s, n)|, n) < |s| + n
  {
    hide ChunkStart;
    ChunkStartNext(0, n);
    if |s| > n {
      ChunkCount(s[n..], n);
      ChunkStartNext(|Chunks(s[n..], n)|, n);
    }
  }

  lemma {:induction false} ChunkAt<T>(s: seq<T>, n: nat, c: nat)
    requires n >= 1 && c < |Chunks(s, n)|
    ensures var start := ChunkStart(c, n);
            start < |s| && Chunks(s, n)[c] == s[start..if start + n < |s| then start + n else |s|]
  {
    hide ChunkStart;
    ChunkStartNext(0, n);
    if c > 0 {
      var tail, start := s[n..], ChunkStart(c - 1, n);
      ChunkAt(tail, n, c - 1);
      ChunkStartNext(c - 1, n);
      SliceOfTail(s, n, start, if start + n < |tail| then start + n else |tail|);
    }
  }

  lemma SliceOfTail<T>(s: seq<T>, n: nat, from: nat, to: nat)
    requires n <= |s| && from <= to <= |s| - n
    ensures s[n..][from..to] == s[n + from..n + to]
  {
  }

  /** The chunks by position: chunk c is s[c * n .. c * n + n], cut off at the end of s, and there are as
      many as it takes to reach that end. */
  lemma {:induction false} ChunksAt<T>(s: seq<T>, n: nat)
    requires n >= 1
    ensures var cs := Chunks(s, n);
            && |s| <= ChunkStart(|cs|, n) < |s| + n
            && forall c :: 0 <= c < |cs| ==>
                 var start := ChunkStart(c, n);
                 start < |s| && cs[c] == s[start..if start + n < |s| then start + n else |s|]
  {
    hide Chunks, ChunkStart;
    ChunkCount(s, n);
    var cs := Chunks(s, n);
    forall c | 0 <= c < |cs|
      ensures ChunkStart(c, n) < |s|
      ensures cs[c] == s[ChunkStart(c, n)..if ChunkStart(c, n) + n < |s| then ChunkStart(c, n) + n else |s|]
    {
      ChunkAt(s, n, c);
    }
  }
}
