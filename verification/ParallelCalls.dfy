/** Grading parallel tool calls: the greedy matching of expected to actual calls. */
module ParallelCalls {

  datatype Mode = Exact | Contains | Fuzzy

  datatype Expected<J> = Expected(tool: string, args: J, mode: Mode)
  datatype Actual<J> = Actual(name: string, args: J)

  /** The two approximate argument scores. */
  datatype Scoring<!J> = Scoring(contains: (J, J) -> bool, fuzzy: (J, J) -> real)

  function Score<J(==)>(s: Scoring<J>, e: Expected<J>, a: Actual<J>): real {
    match e.mode
    case Exact => if a.args == e.args then 1.0 else 0.0
    case Contains => if s.contains(e.args, a.args) then 1.0 else 0.0
    case Fuzzy => s.fuzzy(e.args, a.args)
  }

  predicate Eligible<J>(e: Expected<J>, actual: seq<Actual<J>>, used: set<nat>, i: nat)
    requires i < |actual|
  {
    i !in used && actual[i].name == e.tool
  }

  /** The first best-scoring eligible call among the first n, or none; -1.0 is below any score. */
  datatype Best = Best(index: int, score: real)

  function BestOf<J(==)>(s: Scoring<J>, e: Expected<J>, actual: seq<Actual<J>>, used: set<nat>, n: nat): (b: Best)
    requires n <= |actual|
    ensures b.index == -1 || (0 <= b.index < n && Eligible(e, actual, used, b.index))
  {
    if n == 0 then Best(-1, -1.0)
    else
      var b := BestOf(s, e, actual, used, n - 1);
      if Eligible(e, actual, used, n - 1) && Score(s, e, actual[n - 1]) > b.score
      then Best(n - 1, Score(s, e, actual[n - 1])) else b
  }

  /** Expected call to the index of the actual call matched to it, or -1. */
  function Assign<J(==)>(s: Scoring<J>, expected: seq<Expected<J>>, actual: seq<Actual<J>>): (m: seq<int>)
    ensures |m| == |expected|
    ensures forall k :: 0 <= k < |m| ==> -1 <= m[k] < |actual|
  {
    if expected == [] then []
    else
      var m := Assign(s, expected[..|expected| - 1], actual);
      var b := BestOf(s, expected[|expected| - 1], actual, Used(m), |actual|);
      m + [if b.index >= 0 && b.score >= 0.5 then b.index else -1]
  }

  function Used(m: seq<int>): set<nat> {
    set k | 0 <= k < |m| && m[k] >= 0 :: m[k]
  }

  function Matched(m: seq<int>): nat {
    if m == [] then 0 else Matched(m[..|m| - 1]) + if m[|m| - 1] >= 0 then 1 else 0
  }

  /** The code's loops. */
  method CheckParallelCalls<J(==)>(s: Scoring<J>, expected: seq<Expected<J>>, actual: seq<Actual<J>>)
    returns (matched: nat, correctName: bool)
    ensures matched == Matched(Assign(s, expected, actual)) && matched <= |expected|
    ensures correctName <==> expected != [] && matched == |expected|
  {
    hide Used, Score, Matched, Assign;
    assert Assign(s, expected[..0], actual) == [] && Matched([]) == 0 by { AssignNothing(s, actual); }
    NothingUsed();
    matched, correctName := 0, false;
    if expected == [] {
      return;
    }
    var used: set<nat> := {};
    ghost var m: seq<int> := [];
    for k := 0 to |expected|
      invariant m == Assign(s, expected[..k], actual) && used == Used(m) && matched == Matched(m) && matched <= k
    {
      var bestScore, bestIdx := -1.0, -1;
      for i := 0 to |actual|
        invariant Best(bestIdx, bestScore) == BestOf(s, expected[k], actual, used, i)
      {
        if i in used || actual[i].name != expected[k].tool {
          continue;
        }
        var score := Score(s, expected[k], actual[i]);
        if score > bestScore {
          bestScore, bestIdx := score, i;
        }
      }
      AssignSnoc(s, expected[..k], expected[k], actual);
      assert expected[..k + 1] == expected[..k] + [expected[k]];
      ghost var next := m + [if bestIdx >= 0 && bestScore >= 0.5 then bestIdx else -1];
      MatchedSnoc(m, next[k]);
      if bestIdx >= 0 && bestScore >= 0.5 {
        matched := matched + 1;
        used := used + {bestIdx};
      }
      UsedSnoc(m, next[k]);
      m := next;
    }
    assert expected[..|expected|] == expected;
    correctName := matched == |expected|;
  }

  // ----- one to one -----

  /** Every matched pair has the same tool name and a score of at least one half, and no actual
      call is matched twice. */
  ghost predicate OneToOne<J>(s: Scoring<J>, expected: seq<Expected<J>>, actual: seq<Actual<J>>, m: seq<int>) {
    && |m| == |expected|
    && (forall k :: 0 <= k < |m| && m[k] >= 0 ==>
          m[k] < |actual| && actual[m[k]].name == expected[k].tool && Score(s, expected[k], actual[m[k]]) >= 0.5)
    && (forall j, k :: 0 <= j < k < |m| && m[j] >= 0 ==> m[j] != m[k])
  }

  lemma {:induction false} BestScoreIs<J>(s: Scoring<J>, e: Expected<J>, actual: seq<Actual<J>>, used: set<nat>, n: nat)
    requires n <= |actual|
    ensures var b := BestOf(s, e, actual, used, n);
      (b.index >= 0 ==> b.score == Score(s, e, actual[b.index])) && (b.index < 0 ==> b.score == -1.0)
      && forall i :: 0 <= i < n && Eligible(e, actual, used, i) ==> Score(s, e, actual[i]) <= b.score
  {
    if n > 0 {
      BestScoreIs(s, e, actual, used, n - 1);
    }
  }

  lemma BestUnused<J>(s: Scoring<J>, e: Expected<J>, actual: seq<Actual<J>>, m: seq<int>)
    ensures var b := BestOf(s, e, actual, Used(m), |actual|);
      b.index >= 0 ==> actual[b.index].name == e.tool && forall k :: 0 <= k < |m| ==> m[k] != b.index
  {
    hide BestOf;
    assert forall k :: 0 <= k < |m| && m[k] >= 0 ==> m[k] in Used(m);
  }

  lemma OneToOneSnoc<J>(s: Scoring<J>, expected: seq<Expected<J>>, e: Expected<J>, actual: seq<Actual<J>>,
      m: seq<int>, i: int)
    requires OneToOne(s, expected, actual, m)
    requires i >= 0 ==> i < |actual| && actual[i].name == e.tool && Score(s, e, actual[i]) >= 0.5
    requires i >= 0 ==> forall k :: 0 <= k < |m| ==> m[k] != i
    ensures OneToOne(s, expected + [e], actual, m + [i])
  {
    hide Score;
  }

  lemma AssignSnoc<J>(s: Scoring<J>, expected: seq<Expected<J>>, e: Expected<J>, actual: seq<Actual<J>>)
    ensures var m := Assign(s, expected, actual);
      var b := BestOf(s, e, actual, Used(m), |actual|);
      Assign(s, expected + [e], actual) == m + [if b.index >= 0 && b.score >= 0.5 then b.index else -1]
  {
    assert (expected + [e])[..|expected|] == expected;
  }

  lemma {:induction false} AssignOneToOne<J>(s: Scoring<J>, expected: seq<Expected<J>>, actual: seq<Actual<J>>)
    ensures OneToOne(s, expected, actual, Assign(s, expected, actual))
  {
    if expected != [] {
      hide BestOf, Score, Eligible, Used, OneToOne, Assign;
      var before, e := expected[..|expected| - 1], expected[|expected| - 1];
      var m := Assign(s, before, actual);
      var b := BestOf(s, e, actual, Used(m), |actual|);
      AssignOneToOne(s, before, actual);
      BestScoreIs(s, e, actual, Used(m), |actual|);
      BestUnused(s, e, actual, m);
      OneToOneSnoc(s, before, e, actual, m, if b.index >= 0 && b.score >= 0.5 then b.index else -1);
      AssignSnoc(s, before, e, actual);
      assert before + [e] == expected;
    }
  }

  // ----- exact matching is maximum -----

  type Pair<J> = (string, J)

  function Wanted<J>(expected: seq<Expected<J>>): seq<Pair<J>> {
    seq(|expected|, i requires 0 <= i < |expected| => (expected[i].tool, expected[i].args))
  }

  function Offered<J>(actual: seq<Actual<J>>): seq<Pair<J>> {
    seq(|actual|, i requires 0 <= i < |actual| => (actual[i].name, actual[i].args))
  }

  /** The elements at the first n positions that are not used. */
  function Remaining<T>(a: seq<T>, used: set<nat>, n: nat): multiset<T>
    requires n <= |a|
  {
    if n == 0 then multiset{}
    else if n - 1 in used then Remaining(a, used, n - 1)
    else Remaining(a, used, n - 1) + multiset{a[n - 1]}
  }

  lemma {:induction false} RemainingAll<T>(a: seq<T>, n: nat)
    requires n <= |a|
    ensures Remaining(a, {}, n) == multiset(a[..n])
  {
    if n > 0 {
      RemainingAll(a, n - 1);
      assert a[..n] == a[..n - 1] + [a[n - 1]];
    }
  }

  lemma {:induction false} RemainingMinus<T>(a: seq<T>, used: set<nat>, more: set<nat>, i: nat, n: nat)
    requires n <= |a| && i !in used && i < |a| && more == used + {i}
    ensures n <= i ==> Remaining(a, used, n) == Remaining(a, more, n)
    ensures n > i ==> Remaining(a, used, n) == Remaining(a, more, n) + multiset{a[i]}
  {
    if n > 0 {
      RemainingMinus(a, used, more, i, n - 1);
      if n - 1 > i && n - 1 !in used {
        PlusSwap(Remaining(a, more, n - 1), multiset{a[i]}, multiset{a[n - 1]});
      }
    }
  }

  lemma PlusSwap<T>(x: multiset<T>, y: multiset<T>, z: multiset<T>)
    ensures x + y + z == x + z + y
  {
  }

  lemma {:induction false} RemainingHas<T>(a: seq<T>, used: set<nat>, n: nat, x: T)
    requires n <= |a|
    ensures x in Remaining(a, used, n) <==> exists i :: 0 <= i < n && i !in used && a[i] == x
  {
    if n > 0 {
      RemainingHas(a, used, n - 1, x);
    }
  }

  ghost predicate AllExact<J>(expected: seq<Expected<J>>) {
    forall k :: 0 <= k < |expected| ==> expected[k].mode == Exact
  }

  /** In exact mode an expected call is matched exactly when an equal call is still unused. */
  lemma ExactBest<J>(s: Scoring<J>, e: Expected<J>, actual: seq<Actual<J>>, used: set<nat>)
    requires e.mode == Exact
    ensures var b := BestOf(s, e, actual, used, |actual|);
      (b.index >= 0 && b.score >= 0.5 <==> (e.tool, e.args) in Remaining(Offered(actual), used, |actual|))
      && (b.index >= 0 && b.score >= 0.5 ==> Offered(actual)[b.index] == (e.tool, e.args) && b.index !in used)
  {
    BestScoreIs(s, e, actual, used, |actual|);
    RemainingHas(Offered(actual), used, |actual|, (e.tool, e.args));
    var b := BestOf(s, e, actual, used, |actual|);
    if i :| 0 <= i < |actual| && i !in used && Offered(actual)[i] == (e.tool, e.args) {
      assert Eligible(e, actual, used, i) && Score(s, e, actual[i]) == 1.0;
    }
  }

  /** What is left of the offers is what is not wanted, and as many are matched as are common. */
  ghost predicate LeavesOf<T>(o: seq<T>, w: seq<T>, m: seq<int>) {
    && Remaining(o, Used(m), |o|) == multiset(o) - multiset(w)
    && Matched(m) == |multiset(w) * multiset(o)|
  }

  ghost predicate Leaves<J>(s: Scoring<J>, expected: seq<Expected<J>>, actual: seq<Actual<J>>) {
    LeavesOf(Offered(actual), Wanted(expected), Assign(s, expected, actual))
  }

  lemma LeavesAtStart<T>(o: seq<T>)
    ensures LeavesOf(o, [], [])
  {
    NothingUsed();
    RemainingAll(o, |o|);
    assert o[..|o|] == o;
    hide Remaining;
  }

  lemma LeavesStep<J>(s: Scoring<J>, before: seq<Expected<J>>, e: Expected<J>, actual: seq<Actual<J>>)
    requires e.mode == Exact && Leaves(s, before, actual)
    ensures Leaves(s, before + [e], actual)
  {
    hide BestOf, Used, Assign, Matched, Remaining, Offered, Wanted, LeavesOf, Eligible, Score;
    var m := Assign(s, before, actual);
    var b := BestOf(s, e, actual, Used(m), |actual|);
    var i := if b.index >= 0 && b.score >= 0.5 then b.index else -1;
    ExactBest(s, e, actual, Used(m));
    AssignSnoc(s, before, e, actual);
    WantedSnoc(before, e);
    OfferedLength(actual);
    ExactStep(Offered(actual), Wanted(before), (e.tool, e.args), m, i);
  }

  lemma {:induction false} ExactLeaves<J>(s: Scoring<J>, expected: seq<Expected<J>>, actual: seq<Actual<J>>)
    requires AllExact(expected)
    ensures Leaves(s, expected, actual)
  {
    hide LeavesOf, Assign;
    if expected == [] {
      AssignNothing(s, actual);
      LeavesAtStart(Offered(actual));
      assert expected == [] && Wanted<J>([]) == [];
    } else {
      var before := expected[..|expected| - 1];
      ExactLeaves(s, before, actual);
      LeavesStep(s, before, expected[|expected| - 1], actual);
      assert before + [expected[|expected| - 1]] == expected;
    }
  }

  lemma WantedSnoc<J>(before: seq<Expected<J>>, e: Expected<J>)
    ensures Wanted(before + [e]) == Wanted(before) + [(e.tool, e.args)]
  {
  }

  lemma OfferedLength<J>(actual: seq<Actual<J>>)
    ensures |Offered(actual)| == |actual|
  {
  }

  lemma AssignNothing<J>(s: Scoring<J>, actual: seq<Actual<J>>)
    ensures Assign(s, [], actual) == [] && Matched([]) == 0
  {
  }

  lemma NothingUsed()
    ensures Used([]) == {}
  {
  }

  lemma MatchedSnoc(m: seq<int>, i: int)
    ensures Matched(m + [i]) == Matched(m) + if i >= 0 then 1 else 0
  {
    assert (m + [i])[..|m|] == m;
  }

  lemma ExactStep<T>(o: seq<T>, w: seq<T>, x: T, m: seq<int>, i: int)
    requires LeavesOf(o, w, m)
    requires i >= 0 <==> x in Remaining(o, Used(m), |o|)
    requires i >= 0 ==> i < |o| && o[i] == x && i !in Used(m)
    ensures LeavesOf(o, w + [x], m + [i])
  {
    hide Remaining, Used, Matched;
    UsedSnoc(m, i);
    MatchedSnoc(m, i);
    CommonPart(multiset(w), multiset(o), x);
    if i >= 0 {
      RemainingMinus(o, Used(m), Used(m + [i]), i, |o|);
    } else {
      assert Used(m) + {} == Used(m);
    }
  }

  lemma UsedSnoc(m: seq<int>, i: int)
    ensures Used(m + [i]) == Used(m) + if i >= 0 then {i} else {}
  {
    var all := m + [i];
    assert forall k :: 0 <= k < |m| ==> all[k] == m[k];
    assert all[|m|] == i;
  }

  lemma CommonPart<T>(w: multiset<T>, o: multiset<T>, x: T)
    ensures (w + multiset{x}) * o == w * o + if x in o - w then multiset{x} else multiset{}
    ensures o - (w + multiset{x}) == (o - w) - multiset{x}
  {
  }

  /** In exact mode the number matched is the size of the multiset intersection of the
      (name, arguments) pairs. */
  lemma ExactIsIntersection<J>(s: Scoring<J>, expected: seq<Expected<J>>, actual: seq<Actual<J>>)
    requires AllExact(expected)
    ensures Matched(Assign(s, expected, actual)) == |multiset(Wanted(expected)) * multiset(Offered(actual))|
  {
    ExactLeaves(s, expected, actual);
  }

  // ----- when the greedy assignment is maximum -----

  predicate Accepts<J(==)>(s: Scoring<J>, e: Expected<J>, a: Actual<J>) {
    a.name == e.tool && Score(s, e, a) >= 0.5
  }

  predicate Fits<J(==)>(s: Scoring<J>, expected: seq<Expected<J>>, actual: seq<Actual<J>>, k: nat, i: nat) {
    k < |expected| && i < |actual| && Accepts(s, expected[k], actual[i])
  }

  /** Any one-to-one matching of expectations to calls they accept. */
  ghost predicate IsMatching<J>(s: Scoring<J>, expected: seq<Expected<J>>, actual: seq<Actual<J>>, m: map<nat, nat>) {
    && (forall k :: k in m ==> Fits(s, expected, actual, k, m[k]))
    && (forall j, k :: j in m && k in m && j != k ==> m[j] != m[k])
  }

  lemma {:induction false} InjectionBound(keys: set<nat>, f: map<nat, nat>, values: set<nat>)
    requires forall k :: k in keys ==> k in f && f[k] in values
    requires forall j, k :: j in keys && k in keys && j != k ==> f[j] != f[k]
    ensures |keys| <= |values|
    decreases |keys|
  {
    if keys != {} {
      var k :| k in keys;
      InjectionBound(keys - {k}, f, values - {f[k]});
    }
  }

  /** The expectation a used call was matched to. */
  ghost function OwnerOf(a: seq<int>, i: nat): (k: nat)
    requires i in Used(a)
    ensures k < |a| && a[k] == i
  {
    var k :| 0 <= k < |a| && a[k] == i;
    k
  }

  /** x would rather take call a, or as soon, than call b, though y accepts a and not b. */
  predicate Tempted<J(==)>(s: Scoring<J>, x: Expected<J>, y: Expected<J>, a: Actual<J>, b: Actual<J>) {
    && Accepts(s, x, a) && Accepts(s, x, b) && Score(s, x, a) >= Score(s, x, b)
    && Accepts(s, y, a) && !Accepts(s, y, b)
  }

  ghost predicate NoTemptation<J>(s: Scoring<J>, expected: seq<Expected<J>>, actual: seq<Actual<J>>) {
    forall j, k, i, l :: 0 <= j < |expected| && 0 <= k < |expected| && 0 <= i < |actual| && 0 <= l < |actual| ==>
      !Tempted(s, expected[j], expected[k], actual[i], actual[l])
  }

  /** A call that stays unused and that an expectation accepts scored no higher than the one the
      expectation was matched to. */
  ghost predicate Preferred<J>(s: Scoring<J>, e: Expected<J>, actual: seq<Actual<J>>, used: set<nat>, c: int) {
    forall i: nat :: i < |actual| && i !in used && Accepts(s, e, actual[i]) ==>
      0 <= c < |actual| && Score(s, e, actual[c]) >= Score(s, e, actual[i])
  }

  lemma BestPreferred<J>(s: Scoring<J>, e: Expected<J>, actual: seq<Actual<J>>, used: set<nat>)
    ensures var b := BestOf(s, e, actual, used, |actual|);
      Preferred(s, e, actual, used, if b.index >= 0 && b.score >= 0.5 then b.index else -1)
  {
    BestScoreIs(s, e, actual, used, |actual|);
    var b := BestOf(s, e, actual, used, |actual|);
    hide BestOf, Score;
    forall i: nat | i < |actual| && i !in used && Accepts(s, e, actual[i])
      ensures b.index >= 0 && b.score >= 0.5 && Score(s, e, actual[b.index]) >= Score(s, e, actual[i])
    {
      assert Eligible(e, actual, used, i);
    }
  }

  lemma PreferredLater<J>(s: Scoring<J>, e: Expected<J>, actual: seq<Actual<J>>, used: set<nat>, more: set<nat>, c: int)
    requires Preferred(s, e, actual, used, c) && used <= more
    ensures Preferred(s, e, actual, more, c)
  {
  }

  /** At the end, every expectation was matched to what it prefers to the calls left over. */
  lemma {:induction false} GreedyPrefers<J>(s: Scoring<J>, expected: seq<Expected<J>>, actual: seq<Actual<J>>)
    ensures var m := Assign(s, expected, actual);
      forall k :: 0 <= k < |expected| ==> Preferred(s, expected[k], actual, Used(m), m[k])
  {
    if expected != [] {
      var n := |expected| - 1;
      var before, e := expected[..n], expected[n];
      var a := Assign(s, before, actual);
      var b := BestOf(s, e, actual, Used(a), |actual|);
      var c := if b.index >= 0 && b.score >= 0.5 then b.index else -1;
      assert expected == before + [e];
      AssignSnoc(s, before, e, actual);
      GreedyPrefers(s, before, actual);
      BestPreferred(s, e, actual, Used(a));
      UsedSnoc(a, c);
      hide Assign, BestOf, Used, Preferred;
      PreferredLater(s, e, actual, Used(a), Used(a + [c]), c);
      forall k | 0 <= k < n
        ensures Preferred(s, expected[k], actual, Used(a + [c]), a[k])
      {
        assert Preferred(s, before[k], actual, Used(a), a[k]);
        PreferredLater(s, expected[k], actual, Used(a), Used(a + [c]), a[k]);
      }
    }
  }

  /** Every call that e accepts is used. */
  ghost predicate Sated<J>(s: Scoring<J>, e: Expected<J>, actual: seq<Actual<J>>, used: set<nat>) {
    forall i: nat :: i < |actual| && Accepts(s, e, actual[i]) ==> i in used
  }

  /** Without temptation, who holds a call that a sated expectation accepts is sated itself. */
  lemma OwnerSated<J>(s: Scoring<J>, x: Expected<J>, y: Expected<J>, actual: seq<Actual<J>>, used: set<nat>, c: nat)
    requires c < |actual| && Accepts(s, x, actual[c]) && Accepts(s, y, actual[c])
    requires Sated(s, y, actual, used) && Preferred(s, x, actual, used, c)
    requires forall i :: 0 <= i < |actual| ==> !Tempted(s, x, y, actual[c], actual[i])
    ensures Sated(s, x, actual, used)
  {
    hide Score;
    forall i: nat | i < |actual| && Accepts(s, x, actual[i])
      ensures i in used
    {
      assert !Tempted(s, x, y, actual[c], actual[i]);
    }
  }

  function Owned(a: seq<int>): set<nat> {
    set k: nat | k < |a| && a[k] >= 0
  }

  lemma {:induction false} OwnedSize(a: seq<int>)
    ensures |Owned(a)| == Matched(a)
  {
    if a == [] {
      assert Owned(a) == {};
    } else {
      var n := |a| - 1;
      OwnedSize(a[..n]);
      assert Owned(a) == Owned(a[..n]) + if a[n] >= 0 then {n} else {};
    }
  }

  /** Where another matching sends an expectation: a sated one to the owner of the call it has
      there, any other to itself. */
  ghost function Charge<J>(s: Scoring<J>, expected: seq<Expected<J>>, actual: seq<Actual<J>>, a: seq<int>,
      m: map<nat, nat>, k: nat): nat
    requires k in m && k < |expected|
  {
    if Sated(s, expected[k], actual, Used(a)) && m[k] in Used(a) then OwnerOf(a, m[k]) else k
  }

  ghost predicate Greedy<J>(s: Scoring<J>, expected: seq<Expected<J>>, actual: seq<Actual<J>>, a: seq<int>) {
    && OneToOne(s, expected, actual, a)
    && forall k :: 0 <= k < |expected| ==> Preferred(s, expected[k], actual, Used(a), a[k])
  }

  lemma ChargeOwned<J>(s: Scoring<J>, expected: seq<Expected<J>>, actual: seq<Actual<J>>, a: seq<int>,
      m: map<nat, nat>, k: nat)
    requires Greedy(s, expected, actual, a) && NoTemptation(s, expected, actual)
    requires IsMatching(s, expected, actual, m) && k in m
    ensures var o := Charge(s, expected, actual, a, m, k);
      o in Owned(a)
      && (Sated(s, expected[k], actual, Used(a)) ==>
            a[o] == m[k] && Sated(s, expected[o], actual, Used(a)))
      && (!Sated(s, expected[k], actual, Used(a)) ==> o == k)
  {
    hide Score, Used, Tempted;
    assert Fits(s, expected, actual, k, m[k]);
    assert Preferred(s, expected[k], actual, Used(a), a[k]);
    if Sated(s, expected[k], actual, Used(a)) {
      var o := OwnerOf(a, m[k]);
      assert Accepts(s, expected[o], actual[m[k]]);
      assert forall i :: 0 <= i < |actual| ==> !Tempted(s, expected[o], expected[k], actual[m[k]], actual[i]);
      OwnerSated(s, expected[o], expected[k], actual, Used(a), m[k]);
    }
  }

  lemma ChargesApart<J>(s: Scoring<J>, expected: seq<Expected<J>>, actual: seq<Actual<J>>, a: seq<int>,
      m: map<nat, nat>, j: nat, k: nat)
    requires Greedy(s, expected, actual, a) && NoTemptation(s, expected, actual)
    requires IsMatching(s, expected, actual, m) && j in m && k in m && j != k
    ensures j < |expected| && k < |expected|
    ensures Charge(s, expected, actual, a, m, j) != Charge(s, expected, actual, a, m, k)
  {
    assert m[j] != m[k] && Fits(s, expected, actual, j, m[j]) && Fits(s, expected, actual, k, m[k]);
    hide Greedy, NoTemptation, IsMatching, Charge, Sated, Used, Owned, Accepts;
    ChargeOwned(s, expected, actual, a, m, j);
    ChargeOwned(s, expected, actual, a, m, k);
  }

  lemma GreedyBounds<J>(s: Scoring<J>, expected: seq<Expected<J>>, actual: seq<Actual<J>>, a: seq<int>,
      m: map<nat, nat>)
    requires Greedy(s, expected, actual, a) && NoTemptation(s, expected, actual)
    requires IsMatching(s, expected, actual, m)
    ensures |m| <= Matched(a)
  {
    assert forall k :: k in m ==> Fits(s, expected, actual, k, m[k]);
    hide Greedy, NoTemptation, IsMatching, Charge, Owned, Accepts, Matched;
    var charge := map k | k in m :: Charge(s, expected, actual, a, m, k);
    forall k | k in m
      ensures charge[k] in Owned(a)
    {
      ChargeOwned(s, expected, actual, a, m, k);
    }
    forall j, k | j in m && k in m && j != k
      ensures charge[j] != charge[k]
    {
      ChargesApart(s, expected, actual, a, m, j, k);
    }
    InjectionBound(m.Keys, charge, Owned(a));
    OwnedSize(a);
    assert |m.Keys| == |m|;
  }

  /** When no expectation is tempted by a call that another needs, no one-to-one matching is
      larger than the greedy assignment. */
  lemma GreedyIsMaximum<J>(s: Scoring<J>, expected: seq<Expected<J>>, actual: seq<Actual<J>>, m: map<nat, nat>)
    requires NoTemptation(s, expected, actual) && IsMatching(s, expected, actual, m)
    ensures |m| <= Matched(Assign(s, expected, actual))
  {
    AssignOneToOne(s, expected, actual);
    GreedyPrefers(s, expected, actual);
    hide OneToOne, Preferred, Used, Assign, NoTemptation, IsMatching;
    GreedyBounds(s, expected, actual, Assign(s, expected, actual), m);
  }

  /** With every expectation in exact mode, the number matched is the size of the multiset
      intersection of the (name, arguments) pairs, and no one-to-one matching has more. */
  lemma ExactIsMaximum<J>(s: Scoring<J>, expected: seq<Expected<J>>, actual: seq<Actual<J>>, m: map<nat, nat>)
    requires AllExact(expected) && IsMatching(s, expected, actual, m)
    ensures Matched(Assign(s, expected, actual)) == |multiset(Wanted(expected)) * multiset(Offered(actual))|
    ensures |m| <= Matched(Assign(s, expected, actual))
  {
    ExactIsIntersection(s, expected, actual);
    ExactNoTemptation(s, expected, actual);
    hide NoTemptation, Assign, IsMatching;
    GreedyIsMaximum(s, expected, actual, m);
  }

  /** An exact expectation accepts only calls equal to each other. */
  lemma ExactNoTemptation<J>(s: Scoring<J>, expected: seq<Expected<J>>, actual: seq<Actual<J>>)
    requires AllExact(expected)
    ensures NoTemptation(s, expected, actual)
  {
    forall j, k, i, l | 0 <= j < |expected| && 0 <= k < |expected| && 0 <= i < |actual| && 0 <= l < |actual|
      ensures !Tempted(s, expected[j], expected[k], actual[i], actual[l])
    {
      var x := expected[j];
      if Accepts(s, x, actual[i]) && Accepts(s, x, actual[l]) {
        assert actual[i] == Actual(x.tool, x.args) == actual[l];
      }
    }
  }

  // ----- exactly when it is -----

  lemma GreedyAssigns<J>(s: Scoring<J>, x: Expected<J>, y: Expected<J>, actual: seq<Actual<J>>)
    requires |actual| == 2
    requires BestOf(s, x, actual, {}, 2).index == 0 && BestOf(s, x, actual, {}, 2).score >= 0.5
    requires BestOf(s, y, actual, {0}, 2).score < 0.5
    ensures Matched(Assign(s, [x, y], actual)) == 1
  {
    hide Assign, BestOf, Used, Matched;
    AssignNothing(s, actual);
    AssignSnoc(s, [], x, actual);
    AssignSnoc(s, [x], y, actual);
    assert [] + [x] == [x] && [x] + [y] == [x, y] && [] + [0] == [0];
    NothingUsed();
    assert Assign(s, [x], actual) == [0];
    UsedSnoc([], 0);
    assert Used([0]) == {0} by { assert {} + {0} == {0}; }
    assert Assign(s, [x, y], actual) == [0] + [-1];
    MatchedSnoc([], 0);
    MatchedSnoc([0], -1);
  }

  lemma FirstTaken<J>(s: Scoring<J>, x: Expected<J>, y: Expected<J>, actual: seq<Actual<J>>)
    requires |actual| == 2 && Tempted(s, x, y, actual[0], actual[1])
    ensures BestOf(s, x, actual, {}, 2).index == 0 && BestOf(s, x, actual, {}, 2).score >= 0.5
    ensures BestOf(s, y, actual, {0}, 2).score < 0.5
  {
    hide Score;
    assert BestOf(s, x, actual, {}, 0) == Best(-1, -1.0);
    assert BestOf(s, x, actual, {}, 1) == Best(0, Score(s, x, actual[0]));
    assert BestOf(s, y, actual, {0}, 0) == Best(-1, -1.0);
    assert BestOf(s, y, actual, {0}, 1) == Best(-1, -1.0);
  }

  /** An expectation that is tempted comes first and takes the only call the next one accepts;
      matching them the other way round uses both. */
  lemma TemptedNotMaximum<J>(s: Scoring<J>, x: Expected<J>, y: Expected<J>, a: Actual<J>, b: Actual<J>)
    requires Tempted(s, x, y, a, b)
    ensures Matched(Assign(s, [x, y], [a, b])) == 1
    ensures IsMatching(s, [x, y], [a, b], map[0 := 1, 1 := 0])
  {
    FirstTaken(s, x, y, [a, b]);
    GreedyAssigns(s, x, y, [a, b]);
    hide Assign, BestOf, Used, Matched, Score;
    assert Fits(s, [x, y], [a, b], 0, 1) && Fits(s, [x, y], [a, b], 1, 0);
  }

  /** Some of the elements, in any order. */
  ghost predicate Selection<T>(some: seq<T>, all: seq<T>) {
    multiset(some) <= multiset(all)
  }

  lemma SelectedFrom<T>(some: seq<T>, all: seq<T>, i: nat) returns (j: nat)
    requires Selection(some, all) && i < |some|
    ensures j < |all| && all[j] == some[i]
  {
    assert some[i] in multiset(some);
    assert some[i] in multiset(all);
    j :| 0 <= j < |all| && all[j] == some[i];
  }

  lemma SelectTwo<T>(all: seq<T>, i: nat, j: nat)
    requires i < |all| && j < |all| && all[i] != all[j]
    ensures Selection([all[i], all[j]], all)
  {
    var some := multiset([all[i], all[j]]);
    assert all[i] in multiset(all) && all[j] in multiset(all);
    assert forall x :: x in some ==> x == all[i] || x == all[j];
    assert some[all[i]] == 1 && some[all[j]] == 1;
  }

  /** The greedy assignment is maximum on every selection and order of these expectations and
      calls. */
  ghost predicate AlwaysMaximum<J(!new)>(s: Scoring<J>, expected: seq<Expected<J>>, actual: seq<Actual<J>>) {
    forall es, calls, m :: Selection(es, expected) && Selection(calls, actual) && IsMatching(s, es, calls, m) ==>
      |m| <= Matched(Assign(s, es, calls))
  }

  lemma SelectionNoTemptation<J>(s: Scoring<J>, expected: seq<Expected<J>>, actual: seq<Actual<J>>,
      es: seq<Expected<J>>, calls: seq<Actual<J>>)
    requires NoTemptation(s, expected, actual) && Selection(es, expected) && Selection(calls, actual)
    ensures NoTemptation(s, es, calls)
  {
    hide Tempted, Selection;
    forall j, k, i, l | 0 <= j < |es| && 0 <= k < |es| && 0 <= i < |calls| && 0 <= l < |calls|
      ensures !Tempted(s, es[j], es[k], calls[i], calls[l])
    {
      var j' := SelectedFrom(es, expected, j);
      var k' := SelectedFrom(es, expected, k);
      var i' := SelectedFrom(calls, actual, i);
      var l' := SelectedFrom(calls, actual, l);
      assert !Tempted(s, expected[j'], expected[k'], actual[i'], actual[l']);
    }
  }

  /** For all scores: the greedy assignment is always maximum if and only if no expectation is
      tempted by a call that another needs. */
  lemma MaximumExactly<J(!new)>(s: Scoring<J>, expected: seq<Expected<J>>, actual: seq<Actual<J>>)
    ensures AlwaysMaximum(s, expected, actual) <==> NoTemptation(s, expected, actual)
  {
    hide Assign, Matched, Selection, IsMatching, Tempted;
    if NoTemptation(s, expected, actual) {
      forall es, calls, m | Selection(es, expected) && Selection(calls, actual) && IsMatching(s, es, calls, m)
        ensures |m| <= Matched(Assign(s, es, calls))
      {
        SelectionNoTemptation(s, expected, actual, es, calls);
        GreedyIsMaximum(s, es, calls, m);
      }
    }
    forall j, k, i, l | 0 <= j < |expected| && 0 <= k < |expected| && 0 <= i < |actual| && 0 <= l < |actual|
      ensures Tempted(s, expected[j], expected[k], actual[i], actual[l]) ==> !AlwaysMaximum(s, expected, actual)
    {
      if Tempted(s, expected[j], expected[k], actual[i], actual[l]) {
        TemptedSelection(s, expected, actual, j, k, i, l);
      }
    }
  }

  lemma TemptedSelection<J(!new)>(s: Scoring<J>, expected: seq<Expected<J>>, actual: seq<Actual<J>>,
      j: nat, k: nat, i: nat, l: nat)
    requires j < |expected| && k < |expected| && i < |actual| && l < |actual|
    requires Tempted(s, expected[j], expected[k], actual[i], actual[l])
    ensures !AlwaysMaximum(s, expected, actual)
  {
    assert expected[j] != expected[k] && actual[i] != actual[l];
    SelectTwo(expected, j, k);
    SelectTwo(actual, i, l);
    TemptedNotMaximum(s, expected[j], expected[k], actual[i], actual[l]);
    hide Assign, Matched, Selection, IsMatching, Tempted;
    assert |map[0 as nat := 1 as nat, 1 := 0]| == 2;
  }

  // ----- exact and containment modes -----

  /** The two expectations accept the same calls, or no call in common. */
  ghost predicate SameOrApart<J>(s: Scoring<J>, d: Expected<J>, e: Expected<J>, actual: seq<Actual<J>>) {
    || (forall i :: 0 <= i < |actual| ==> (Accepts(s, d, actual[i]) <==> Accepts(s, e, actual[i])))
    || (forall i :: 0 <= i < |actual| ==> !Accepts(s, d, actual[i]) || !Accepts(s, e, actual[i]))
  }

  /** Where scores are only 0 or 1, that is the condition for any two expectations. */
  lemma MaximumWithoutFuzzy<J(!new)>(s: Scoring<J>, expected: seq<Expected<J>>, actual: seq<Actual<J>>)
    requires forall k :: 0 <= k < |expected| ==> expected[k].mode != Fuzzy
    ensures AlwaysMaximum(s, expected, actual) <==>
      forall j, k :: 0 <= j < |expected| && 0 <= k < |expected| ==> SameOrApart(s, expected[j], expected[k], actual)
  {
    MaximumExactly(s, expected, actual);
    hide AlwaysMaximum, Score, Accepts;
    if NoTemptation(s, expected, actual) {
      forall j, k | 0 <= j < |expected| && 0 <= k < |expected|
        ensures SameOrApart(s, expected[j], expected[k], actual)
      {
        NeitherTempted(s, expected, actual, j, k);
      }
    }
    forall j, k, i, l | 0 <= j < |expected| && 0 <= k < |expected| && 0 <= i < |actual| && 0 <= l < |actual|
      ensures SameOrApart(s, expected[j], expected[k], actual) ==>
        !Tempted(s, expected[j], expected[k], actual[i], actual[l])
    {
    }
  }

  lemma NeitherTempted<J>(s: Scoring<J>, expected: seq<Expected<J>>, actual: seq<Actual<J>>, j: nat, k: nat)
    requires NoTemptation(s, expected, actual) && j < |expected| && k < |expected|
    requires expected[j].mode != Fuzzy && expected[k].mode != Fuzzy
    ensures SameOrApart(s, expected[j], expected[k], actual)
  {
    var d, e := expected[j], expected[k];
    forall i, l | 0 <= i < |actual| && 0 <= l < |actual| && Accepts(s, d, actual[i]) && Accepts(s, e, actual[i])
      ensures Accepts(s, d, actual[l]) <==> Accepts(s, e, actual[l])
    {
      assert !Tempted(s, d, e, actual[i], actual[l]) && !Tempted(s, e, d, actual[i], actual[l]);
    }
  }

  /** Arguments by name, with values as they print. */
  type Arguments = map<string, string>

  predicate PartOf(part: string, whole: string, p: nat) {
    p + |part| <= |whole| && whole[p..p + |part|] == part
  }

  predicate Substring(part: string, whole: string) {
    exists p :: 0 <= p <= |whole| && PartOf(part, whole, p)
  }

  /** "contains" mode: every expected value is a substring of the actual one. */
  predicate ContainsAll(expected: Arguments, actual: Arguments) {
    forall k :: k in expected ==> Substring(expected[k], if k in actual then actual[k] else "")
  }

  function TextScoring(fuzzy: (Arguments, Arguments) -> real): Scoring<Arguments> {
    Scoring((e, a) => ContainsAll(e, a), fuzzy)
  }

  lemma PlacesSubstring()
    ensures Substring("Paris", "Paris") && !Substring("Paris", "Rome")
  {
    assert PartOf("Paris", "Paris", 0);
    assert forall p: nat :: !PartOf("Paris", "Rome", p);
  }

  /** An expectation without arguments accepts every call of its tool, and is tempted. */
  lemma ContainsNotMaximum(fuzzy: (Arguments, Arguments) -> real, tool: string)
    ensures var s := TextScoring(fuzzy);
      var expected := [Expected(tool, map[], Contains), Expected(tool, map["city" := "Paris"], Contains)];
      var actual := [Actual(tool, map["city" := "Paris"]), Actual(tool, map["city" := "Rome"])];
      Matched(Assign(s, expected, actual)) == 1 && IsMatching(s, expected, actual, map[0 := 1, 1 := 0])
  {
    var s := TextScoring(fuzzy);
    var x, y := Expected(tool, map[], Contains), Expected(tool, map["city" := "Paris"], Contains);
    var a, b := Actual(tool, map["city" := "Paris"]), Actual(tool, map["city" := "Rome"]);
    PlacesSubstring();
    hide Assign, Matched, Substring, IsMatching;
    assert "city" in y.args && y.args["city"] == "Paris" && b.args["city"] == "Rome";
    assert Score(s, y, b) == 0.0;
    assert Tempted(s, x, y, a, b);
    TemptedNotMaximum(s, x, y, a, b);
  }
}
