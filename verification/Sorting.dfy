/** Stable sorting, as `sorted` does it, with the facts the callers rely on. */
module Sorting {

  ghost predicate IsOrder<T(!new)>(leq: (T, T) -> bool) {
    && (forall x, y :: leq(x, y) || leq(y, x))
    && (forall x, y, z :: leq(x, y) && leq(y, z) ==> leq(x, z))
  }

  ghost predicate Sorted<T>(s: seq<T>, leq: (T, T) -> bool) {
    forall i, j :: 0 <= i < j < |s| ==> leq(s[i], s[j])
  }

  /** Places x behind everything that is not above it. */
  function Insert<T>(s: seq<T>, x: T, leq: (T, T) -> bool): (r: seq<T>)
    ensures |r| == |s| + 1
  {
    if s == [] then [x]
    else
      var last := s[|s|-1];
      if leq(last, x) then s + [x] else Insert(s[..|s|-1], x, leq) + [last]
  }

  function Sort<T>(s: seq<T>, leq: (T, T) -> bool): (r: seq<T>)
    ensures |r| == |s|
  {
    if s == [] then [] else Insert(Sort(s[..|s|-1], leq), s[|s|-1], leq)
  }

  lemma {:induction false} InsertPermutes<T>(s: seq<T>, x: T, leq: (T, T) -> bool)
    ensures multiset(Insert(s, x, leq)) == multiset(s) + multiset{x}
  {
    if s != [] && !leq(s[|s|-1], x) {
      InsertPermutes(s[..|s|-1], x, leq);
      assert s == s[..|s|-1] + [s[|s|-1]];
    }
  }

  lemma {:induction false} InsertSorted<T(!new)>(s: seq<T>, x: T, leq: (T, T) -> bool)
    requires IsOrder(leq) && Sorted(s, leq)
    ensures Sorted(Insert(s, x, leq), leq)
  {
    if s != [] && !leq(s[|s|-1], x) {
      var init, last := s[..|s|-1], s[|s|-1];
      InsertSorted(init, x, leq);
      InsertPermutes(init, x, leq);
      var r := Insert(init, x, leq);
      forall i | 0 <= i < |r| ensures leq(r[i], last) {
        assert r[i] in multiset(r);
        assert r[i] == x || r[i] in init;
      }
    }
  }

  /** The result is a sorted rearrangement. */
  lemma {:induction false} SortSorts<T(!new)>(s: seq<T>, leq: (T, T) -> bool)
    requires IsOrder(leq)
    ensures Sorted(Sort(s, leq), leq)
    ensures multiset(Sort(s, leq)) == multiset(s)
  {
    if s != [] {
      var init, last := s[..|s|-1], s[|s|-1];
      SortSorts(init, leq);
      InsertSorted(Sort(init, leq), last, leq);
      InsertPermutes(Sort(init, leq), last, leq);
      assert s == init + [last];
    }
  }

  /** Sorting what is already sorted changes nothing, equal elements included. */
  lemma {:induction false} SortFixesSorted<T>(s: seq<T>, leq: (T, T) -> bool)
    requires Sorted(s, leq)
    ensures Sort(s, leq) == s
  {
    if s != [] {
      SortFixesSorted(s[..|s|-1], leq);
    }
  }

  /** The elements that tie with x, in order of appearance. */
  function Ties<T>(s: seq<T>, x: T, leq: (T, T) -> bool): seq<T> {
    if s == [] then []
    else
      var init, last := Ties(s[..|s|-1], x, leq), s[|s|-1];
      if leq(last, x) && leq(x, last) then init + [last] else init
  }

  lemma {:induction false} InsertStable<T(!new)>(s: seq<T>, y: T, x: T, leq: (T, T) -> bool)
    requires IsOrder(leq)
    ensures Ties(Insert(s, y, leq), x, leq) == Ties(s + [y], x, leq)
  {
    assert (s + [y])[..|s|] == s;
    if s != [] && !leq(s[|s|-1], y) {
      var init, last := s[..|s|-1], s[|s|-1];
      InsertStable(init, y, x, leq);
      assert (init + [y])[..|init|] == init;
      assert (Insert(init, y, leq) + [last])[..|s|] == Insert(init, y, leq);
    }
  }

  /** Stability: tying elements keep their order. */
  lemma {:induction false} SortStable<T(!new)>(s: seq<T>, x: T, leq: (T, T) -> bool)
    requires IsOrder(leq)
    ensures Ties(Sort(s, leq), x, leq) == Ties(s, x, leq)
  {
    if s != [] {
      var init, last := s[..|s|-1], s[|s|-1];
      SortStable(init, x, leq);
      InsertStable(Sort(init, leq), last, x, leq);
      assert (Sort(init, leq) + [last])[..|init|] == Sort(init, leq);
    }
  }

  function Count<T>(s: seq<T>, p: T -> bool): (n: nat)
    ensures n <= |s|
  {
    if s == [] then 0 else Count(s[..|s|-1], p) + if p(s[|s|-1]) then 1 else 0
  }

  lemma CountSnoc<T>(s: seq<T>, x: T, p: T -> bool)
    ensures Count(s + [x], p) == Count(s, p) + if p(x) then 1 else 0
  {
    assert (s + [x])[..|s|] == s;
  }

  lemma {:induction false} CountConcat<T>(a: seq<T>, b: seq<T>, p: T -> bool)
    ensures Count(a + b, p) == Count(a, p) + Count(b, p)
  {
    if b == [] {
      assert a + b == a;
    } else {
      CountConcat(a, b[..|b|-1], p);
      assert (a + b)[..|a + b|-1] == a + b[..|b|-1];
    }
  }

  lemma {:induction false} InsertCount<T>(s: seq<T>, x: T, leq: (T, T) -> bool, p: T -> bool)
    ensures Count(Insert(s, x, leq), p) == Count(s, p) + if p(x) then 1 else 0
  {
    if s == [] {
      assert Count([x], p) == Count([], p) + if p(x) then 1 else 0 by { assert [x][..0] == []; }
    } else if leq(s[|s|-1], x) {
      assert (s + [x])[..|s|] == s;
    } else {
      var init, last := s[..|s|-1], s[|s|-1];
      InsertCount(init, x, leq, p);
      assert (Insert(init, x, leq) + [last])[..|s|] == Insert(init, x, leq);
    }
  }

  lemma {:induction false} SortCount<T>(s: seq<T>, leq: (T, T) -> bool, p: T -> bool)
    ensures Count(Sort(s, leq), p) == Count(s, p)
  {
    if s != [] {
      SortCount(s[..|s|-1], leq, p);
      InsertCount(Sort(s[..|s|-1], leq), s[|s|-1], leq, p);
    }
  }

  lemma {:induction false} CountAll<T>(s: seq<T>, p: T -> bool)
    requires forall i :: 0 <= i < |s| ==> p(s[i])
    ensures Count(s, p) == |s|
  {
    if s != [] {
      CountAll(s[..|s|-1], p);
    }
  }

  lemma {:induction false} CountNone<T>(s: seq<T>, p: T -> bool)
    requires forall i :: 0 <= i < |s| ==> !p(s[i])
    ensures Count(s, p) == 0
  {
    if s != [] {
      CountNone(s[..|s|-1], p);
    }
  }

  /** A predicate that fails from index i on holds for at most i elements. */
  lemma CountAtMostPrefix<T>(s: seq<T>, i: nat, p: T -> bool)
    requires i <= |s| && forall j :: i <= j < |s| ==> !p(s[j])
    ensures Count(s, p) <= i
  {
    assert s == s[..i] + s[i..];
    CountConcat(s[..i], s[i..], p);
    CountNone(s[i..], p);
  }

  /** A predicate that holds up to index i holds for more than i elements. */
  lemma CountAtLeastPrefix<T>(s: seq<T>, i: nat, p: T -> bool)
    requires i < |s| && forall j :: 0 <= j <= i ==> p(s[j])
    ensures Count(s, p) > i
  {
    assert s == s[..i+1] + s[i+1..];
    CountConcat(s[..i+1], s[i+1..], p);
    CountAll(s[..i+1], p);
  }

  lemma {:induction false} CountMonotone<T(!new)>(s: seq<T>, p: T -> bool, q: T -> bool)
    requires forall x :: p(x) ==> q(x)
    ensures Count(s, p) <= Count(s, q)
  {
    if s != [] {
      CountMonotone(s[..|s|-1], p, q);
    }
  }

  lemma {:induction false} CountDisjoint<T(!new)>(s: seq<T>, p: T -> bool, q: T -> bool)
    requires forall x :: !(p(x) && q(x))
    ensures Count(s, p) + Count(s, q) <= |s|
  {
    if s != [] {
      CountDisjoint(s[..|s|-1], p, q);
    }
  }
}
