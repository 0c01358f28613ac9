/** Histories of store events and the sub-histories properties talk about. */
module CommitLog {
  import opened RollingBaseline

  /** Call number `call` of client `client` touched `key` with `value`. */
  datatype Event = Event(client: nat, call: nat, key: string, value: real)

  datatype Filter =
    | OnKey(key: string)
    | OfCall(client: nat, call: nat)
    | OnKeyBy(key: string, client: nat)
    | OnKeyByOthers(key: string, client: nat)

  predicate Matches(f: Filter, e: Event) {
    match f
    case OnKey(k) => e.key == k
    case OfCall(c, i) => e.client == c && e.call == i
    case OnKeyBy(k, c) => e.key == k && e.client == c
    case OnKeyByOthers(k, c) => e.key == k && e.client != c
  }

  function Select(log: seq<Event>, f: Filter): (r: seq<Event>)
    ensures |r| <= |log|
  {
    if log == [] then []
    else
      var init, e := log[..|log|-1], log[|log|-1];
      if Matches(f, e) then Select(init, f) + [e] else Select(init, f)
  }

  lemma SelectSnoc(log: seq<Event>, e: Event, f: Filter)
    ensures Select(log + [e], f) == if Matches(f, e) then Select(log, f) + [e] else Select(log, f)
  {
    assert (log + [e])[..|log|] == log;
  }

  lemma {:induction false} SelectConcat(a: seq<Event>, b: seq<Event>, f: Filter)
    ensures Select(a + b, f) == Select(a, f) + Select(b, f)
  {
    hide Select, Matches;
    if b == [] {
      assert a + b == a;
    } else {
      var init, e := b[..|b|-1], b[|b|-1];
      SelectConcat(a, init, f);
      assert a + b == (a + init) + [e] && b == init + [e];
      SelectSnoc(a + init, e, f);
      SelectSnoc(init, e, f);
    }
  }

  lemma SelectSplit(log: seq<Event>, i: nat, f: Filter)
    requires i <= |log|
    ensures Select(log, f) == Select(log[..i], f) + Select(log[i..], f)
  {
    assert log == log[..i] + log[i..];
    SelectConcat(log[..i], log[i..], f);
  }

  lemma {:induction false} SelectNone(log: seq<Event>, f: Filter)
    requires forall e :: e in log ==> !Matches(f, e)
    ensures Select(log, f) == []
  {
    if log != [] {
      SelectNone(log[..|log|-1], f);
    }
  }

  /** Events on a key are the client's own and everybody else's. */
  lemma {:induction false} OwnAndOthers(log: seq<Event>, key: string, client: nat)
    ensures |Select(log, OnKey(key))| ==
            |Select(log, OnKeyBy(key, client))| + |Select(log, OnKeyByOthers(key, client))|
  {
    if log != [] {
      OwnAndOthers(log[..|log|-1], key, client);
    }
  }

  // ----- totals over clients -----

  /** Sum over clients 0..n of the events each of them has on the key. */
  function TotalBy(log: seq<Event>, key: string, n: nat): nat {
    if n == 0 then 0 else TotalBy(log, key, n - 1) + |Select(log, OnKeyBy(key, n - 1))|
  }

  function TotalByOthers(log: seq<Event>, key: string, n: nat): nat {
    if n == 0 then 0 else TotalByOthers(log, key, n - 1) + |Select(log, OnKeyByOthers(key, n - 1))|
  }

  predicate ClientsBelow(log: seq<Event>, n: nat) {
    forall e :: e in log ==> e.client < n
  }

  lemma {:induction false} TotalBySnoc(log: seq<Event>, e: Event, key: string, n: nat)
    ensures TotalBy(log + [e], key, n) ==
            TotalBy(log, key, n) + if e.key == key && e.client < n then 1 else 0
  {
    if n != 0 {
      TotalBySnoc(log, e, key, n - 1);
      SelectSnoc(log, e, OnKeyBy(key, n - 1));
    }
  }

  /** Every event on the key is counted for exactly one client. */
  lemma {:induction false} TotalByIsAll(log: seq<Event>, key: string, n: nat)
    requires ClientsBelow(log, n)
    ensures TotalBy(log, key, n) == |Select(log, OnKey(key))|
  {
    if log == [] {
      TotalByEmpty(key, n);
    } else {
      var init, e := log[..|log|-1], log[|log|-1];
      assert log == init + [e];
      TotalByIsAll(init, key, n);
      TotalBySnoc(init, e, key, n);
    }
  }

  lemma {:induction false} TotalByEmpty(key: string, n: nat)
    ensures TotalBy([], key, n) == 0
  {
    if n != 0 {
      TotalByEmpty(key, n - 1);
    }
  }

  /** Every event on the key is counted for all clients but its own. */
  lemma {:induction false} TotalByOthersSum(log: seq<Event>, key: string, n: nat)
    ensures TotalBy(log, key, n) + TotalByOthers(log, key, n) == n * |Select(log, OnKey(key))|
  {
    hide Select;
    if n != 0 {
      TotalByOthersSum(log, key, n - 1);
      OwnAndOthers(log, key, n - 1);
      var k := |Select(log, OnKey(key))|;
      assert n * k == (n - 1) * k + k;
    }
  }

  // ----- the state a history leaves behind -----

  function WindowSizeOf(sizes: seq<int>, client: nat): int {
    if client < |sizes| then sizes[client] else 0
  }

  function AsWrites(log: seq<Event>, sizes: seq<int>): (ws: seq<Write>)
    ensures |ws| == |log|
  {
    seq(|log|, i requires 0 <= i < |log| => Write(WindowSizeOf(sizes, log[i].client), log[i].value))
  }

  function ValuesOf(log: seq<Event>): (vs: seq<real>)
    ensures |vs| == |log|
  {
    seq(|log|, i requires 0 <= i < |log| => log[i].value)
  }

  /** The fold of the update function over the key's committed values, in commit order. */
  function KeyState(log: seq<Event>, sizes: seq<int>, key: string): BucketState {
    Replay(AsWrites(Select(log, OnKey(key)), sizes))
  }

  lemma KeyStateSnoc(log: seq<Event>, e: Event, sizes: seq<int>, key: string)
    ensures KeyState(log + [e], sizes, key) ==
            if e.key == key
            then ApplyUpdate(WindowSizeOf(sizes, e.client), KeyState(log, sizes, key), e.value)
            else KeyState(log, sizes, key)
  {
    hide ApplyUpdate;
    SelectSnoc(log, e, OnKey(key));
    if e.key == key {
      var before := AsWrites(Select(log, OnKey(key)), sizes);
      var after := AsWrites(Select(log + [e], OnKey(key)), sizes);
      assert after == before + [Write(WindowSizeOf(sizes, e.client), e.value)];
      assert after[..|after|-1] == before;
    }
  }
}
