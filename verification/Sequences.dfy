/** Joining a sequence of chunks. */
module Sequences {

  function Flatten<T>(chunks: seq<seq<T>>): seq<T> {
    if chunks == [] then [] else Flatten(chunks[..|chunks| - 1]) + chunks[|chunks| - 1]
  }

  lemma {:induction false} FlattenAppend<T>(a: seq<seq<T>>, b: seq<seq<T>>)
    ensures Flatten(a + b) == Flatten(a) + Flatten(b)
  {
    if b == [] {
      assert a + b == a;
    } else {
      FlattenAppend(a, b[..|b| - 1]);
      assert (a + b)[..|a + b| - 1] == a + b[..|b| - 1];
    }
  }

  lemma FlattenOne<T>(a: seq<seq<T>>, p: seq<T>)
    ensures Flatten(a + [p]) == Flatten(a) + p
  {
    assert (a + [p])[..|a|] == a;
  }

  /** Joining entries that are each one element of e or nothing gives all of e exactly when
      none is nothing. */
  lemma {:induction false} JoinsAll<T>(a: seq<seq<T>>, e: seq<T>)
    requires |a| == |e| && forall i :: 0 <= i < |a| ==> a[i] == [e[i]] || a[i] == []
    ensures |Flatten(a)| <= |a|
    ensures Flatten(a) == e <==> forall i :: 0 <= i < |a| ==> a[i] != []
  {
    if a != [] {
      var n := |a| - 1;
      JoinsAll(a[..n], e[..n]);
      assert e == e[..n] + [e[n]];
      if a[n] != [] && Flatten(a) == e {
        assert Flatten(a)[..n] == e[..n];
      }
    }
  }

  ghost predicate Increasing(positions: seq<int>) {
    forall i, j :: 0 <= i < j < |positions| ==> positions[i] < positions[j]
  }

  // ----- stable sorting -----

  /** Behind everything that may stand before x. */
  function Insert<T>(leq: (T, T) -> bool, sorted: seq<T>, x: T): seq<T> {
    if sorted == [] || leq(sorted[|sorted| - 1], x) then sorted + [x]
    else Insert(leq, sorted[..|sorted| - 1], x) + [sorted[|sorted| - 1]]
  }

  /** Python's `sorted`, which keeps the order of equal elements. */
  function SortBy<T>(leq: (T, T) -> bool, s: seq<T>): seq<T> {
    if s == [] then [] else Insert(leq, SortBy(leq, s[..|s| - 1]), s[|s| - 1])
  }

  ghost predicate OrderedBy<T>(leq: (T, T) -> bool, s: seq<T>) {
    forall i, j :: 0 <= i < j < |s| ==> leq(s[i], s[j])
  }

  ghost predicate TotalOrder<T(!new)>(leq: (T, T) -> bool) {
    && (forall x, y :: leq(x, y) || leq(y, x))
    && forall x, y, z :: leq(x, y) && leq(y, z) ==> leq(x, z)
  }

  lemma {:induction false} InsertAdds<T>(leq: (T, T) -> bool, sorted: seq<T>, x: T)
    ensures multiset(Insert(leq, sorted, x)) == multiset(sorted) + multiset{x}
  {
    if sorted != [] && !leq(sorted[|sorted| - 1], x) {
      var n := |sorted| - 1;
      InsertAdds(leq, sorted[..n], x);
      assert sorted == sorted[..n] + [sorted[n]];
    }
  }

  lemma {:induction false} InsertBounded<T>(leq: (T, T) -> bool, sorted: seq<T>, x: T, last: T)
    requires leq(x, last) && forall i :: 0 <= i < |sorted| ==> leq(sorted[i], last)
    ensures forall i :: 0 <= i < |Insert(leq, sorted, x)| ==> leq(Insert(leq, sorted, x)[i], last)
  {
    if sorted != [] && !leq(sorted[|sorted| - 1], x) {
      InsertBounded(leq, sorted[..|sorted| - 1], x, last);
    }
  }

  lemma {:induction false} InsertOrders<T(!new)>(leq: (T, T) -> bool, sorted: seq<T>, x: T)
    requires TotalOrder(leq) && OrderedBy(leq, sorted)
    ensures OrderedBy(leq, Insert(leq, sorted, x))
  {
    if sorted != [] {
      var n := |sorted| - 1;
      if leq(sorted[n], x) {
        assert forall i :: 0 <= i < n ==> leq(sorted[i], sorted[n]);
      } else {
        assert leq(x, sorted[n]);
        InsertOrders(leq, sorted[..n], x);
        InsertBounded(leq, sorted[..n], x, sorted[n]);
      }
    }
  }

  lemma {:induction false} SortOrders<T(!new)>(leq: (T, T) -> bool, s: seq<T>)
    requires TotalOrder(leq)
    ensures OrderedBy(leq, SortBy(leq, s)) && multiset(SortBy(leq, s)) == multiset(s)
    decreases |s|
  {
    if s != [] {
      var n := |s| - 1;
      SortOrders(leq, s[..n]);
      assert s == s[..n] + [s[n]];
      var sorted := SortBy(leq, s[..n]);
      assert SortBy(leq, s) == Insert(leq, sorted, s[n]);
      hide TotalOrder, Insert, OrderedBy, SortBy;
      InsertOrders(leq, sorted, s[n]);
      InsertAdds(leq, sorted, s[n]);
    }
  }

  /** The elements that x ties with, in order. */
  ghost function Ties<T>(leq: (T, T) -> bool, x: T, s: seq<T>): seq<T> {
    if s == [] then []
    else
      var last := s[|s| - 1];
      Ties(leq, x, s[..|s| - 1]) + if leq(x, last) && leq(last, x) then [last] else []
  }

  lemma TiesSnoc<T>(leq: (T, T) -> bool, x: T, s: seq<T>, y: T)
    ensures Ties(leq, x, s + [y]) == Ties(leq, x, s) + if leq(x, y) && leq(y, x) then [y] else []
  {
    assert (s + [y])[..|s|] == s;
  }

  lemma {:induction false} InsertStable<T(!new)>(leq: (T, T) -> bool, x: T, sorted: seq<T>, y: T)
    requires TotalOrder(leq)
    ensures Ties(leq, x, Insert(leq, sorted, y)) == Ties(leq, x, sorted + [y])
  {
    TiesSnoc(leq, x, sorted, y);
    if sorted != [] && !leq(sorted[|sorted| - 1], y) {
      var n := |sorted| - 1;
      InsertStable(leq, x, sorted[..n], y);
      TiesSnoc(leq, x, sorted[..n], y);
      TiesSnoc(leq, x, Insert(leq, sorted[..n], y), sorted[n]);
    }
  }

  /** Sorting is stable: elements that tie stay in their order. */
  lemma {:induction false} SortStable<T(!new)>(leq: (T, T) -> bool, x: T, s: seq<T>)
    requires TotalOrder(leq)
    ensures Ties(leq, x, SortBy(leq, s)) == Ties(leq, x, s)
  {
    if s != [] {
      var n := |s| - 1;
      SortStable(leq, x, s[..n]);
      InsertStable(leq, x, SortBy(leq, s[..n]), s[n]);
      TiesSnoc(leq, x, SortBy(leq, s[..n]), s[n]);
    }
  }

  lemma {:induction false} SortKeeps<T>(leq: (T, T) -> bool, s: seq<T>)
    requires OrderedBy(leq, s)
    ensures SortBy(leq, s) == s
  {
    if s != [] {
      var n := |s| - 1;
      SortKeeps(leq, s[..n]);
      assert s == s[..n] + [s[n]];
    }
  }

  // ----- two ordered lists that meet at common positions -----

  /** The entries of two lists stand at positions; entries at one position are equal, and an
      entry with no partner is empty. */
  ghost predicate Meet<T>(p: seq<nat>, a: seq<seq<T>>, q: seq<nat>, b: seq<seq<T>>) {
    && |p| == |a| && |q| == |b|
    && (forall i, j :: 0 <= i < |p| && 0 <= j < |q| && p[i] == q[j] ==> a[i] == b[j])
    && (forall i :: 0 <= i < |p| ==> p[i] in q || a[i] == [])
    && (forall j :: 0 <= j < |q| ==> q[j] in p || b[j] == [])
  }

  /** Such lists join to the same sequence. */
  lemma {:induction false} MeetingJoin<T>(p: seq<nat>, a: seq<seq<T>>, q: seq<nat>, b: seq<seq<T>>)
    requires Increasing(p) && Increasing(q) && Meet(p, a, q, b)
    ensures Flatten(a) == Flatten(b)
    decreases |p| + |q|
  {
    var m, n := |p| - 1, |q| - 1;
    if p == [] && q == [] {
    } else if q == [] || (p != [] && p[m] > q[n]) {
      assert p[m] !in q;
      MeetingJoin(p[..m], a[..m], q, b);
    } else if p == [] || p[m] < q[n] {
      assert q[n] !in p;
      MeetingJoin(p, a, q[..n], b[..n]);
    } else {
      MeetingJoin(p[..m], a[..m], q[..n], b[..n]);
    }
  }
}
