/** The joint target is, up to a factor, the only distribution that a round leaves unchanged. */
module UniqueTarget {
  import opened TemperedModel
  import opened TreeSums
  import opened Generation
  import opened Kernels
  import opened MetropolisMove
  import opened ReplicaExchange

  // ----- the move reaches everything -----

  lemma PositiveProduct(a: real, b: real)
    requires a > 0.0 && b > 0.0
    ensures a * b > 0.0
  {
  }

  lemma NonNegativeProduct(a: real, b: real)
    requires a >= 0.0 && b >= 0.0
    ensures a * b >= 0.0
  {
  }

  /** A restart from the beginning can propose any completed sequence, and accept it. */
  lemma RestartPositive(s: Setting, k: nat, x: seq<Token>, y: seq<Token>)
    requires ValidSetting(s) && k < |s.powers| && Complete(s, x) && Complete(s, y)
    ensures RestartAt(s, k)(0)(x, y) > 0.0
  {
    var propose, accept := Propose(s, k, 0), Accept(s, k, 0);
    assert x[..0] == [] && [] <= y;
    GenProbFromCaches(s, k, [], y);
    assert propose(x, y) > 0.0 && accept(x, y) > 0.0;
    PositiveProduct(propose(x, y), accept(x, y));
    hide Propose, Accept;
    assert Accepted(propose, accept, x)(y) > 0.0;
    RejectedNonNegative(s, k, x);
  }

  lemma RejectedNonNegative(s: Setting, k: nat, x: seq<Token>)
    requires ValidSetting(s) && k < |s.powers| && Complete(s, x)
    ensures TreeSum(s, [], Rejected(Propose(s, k, 0), Accept(s, k, 0), x)) >= 0.0
  {
    var propose, accept := Propose(s, k, 0), Accept(s, k, 0);
    ProposeDistribution(s, k, 0, x);
    var no := Rejected(propose, accept, x);
    assert forall y :: Complete(s, y) ==> Fraction(accept(x, y));
    hide Propose, Accept;
    forall y | Complete(s, y)
      ensures no(y) >= 0.0
    {
      assert Row(propose, x)(y) >= 0.0;
      NonNegativeProduct(propose(x, y), 1.0 - accept(x, y));
    }
    TreeNonNegative(s, [], no);
  }

  lemma {:induction false} MoveSumPositive(s: Setting, moves: nat -> Kernel, n: nat, x: seq<Token>, y: seq<Token>)
    requires n > 0 && moves(0)(x, y) > 0.0
    requires forall i: nat :: i < n ==> moves(i)(x, y) >= 0.0
    ensures MoveSumAt(moves, n, x, y) > 0.0
  {
    if n > 1 {
      MoveSumPositive(s, moves, n - 1, x, y);
    } else {
      assert MoveSumAt(moves, 0, x, y) == 0.0;
    }
  }

  /** From every completed sequence a move can lead to every other. */
  lemma MovePositive(s: Setting, k: nat, x: seq<Token>, y: seq<Token>)
    requires ValidSetting(s) && k < |s.powers| && Complete(s, x) && Complete(s, y)
    ensures Move(s, k)(x, y) > 0.0
  {
    var moves := RestartAt(s, k);
    RestartPositive(s, k, x, y);
    forall i: nat | i < s.horizon
      ensures moves(i)(x, y) >= 0.0
    {
      RestartStochastic(s, k, i, x);
      assert Row(moves(i), x)(y) >= 0.0;
    }
    hide RestartAt;
    MoveSumPositive(s, moves, s.horizon, x, y);
    PositiveProduct(1.0 / s.horizon as real, MoveSumAt(moves, s.horizon, x, y));
  }

  // ----- one positive ladder makes all positive -----

  /** A sum of non-negative terms is at least each of them. */
  lemma TreeDominates(s: Setting, y: seq<Token>, f: Measure)
    requires ValidSetting(s) && Complete(s, y) && forall z :: Complete(s, z) ==> f(z) >= 0.0
    ensures TreeSum(s, [], f) >= f(y)
  {
    var point: Measure := z => if z == y then f(y) else 0.0;
    var rest: Measure := z => if z == y then 0.0 else f(z);
    TreePoint(s, y, point);
    TreeNonNegative(s, [], rest);
    TreeLinear(s, [], point, rest, f, 1.0, 1.0);
  }

  ghost predicate NonNegative(s: Setting, law: Law) {
    forall c :: ValidLadder(s, c) ==> law(c) >= 0.0
  }

  lemma ArrivingNonNegative(s: Setting, k: nat, law: Law, c: Ladder)
    requires ValidSetting(s) && k < |s.powers| && NonNegative(s, law) && ValidLadder(s, c)
    ensures forall x :: Complete(s, x) ==> Arriving(s, k, law, c)(x) >= 0.0
  {
    hide Move;
    forall x | Complete(s, x)
      ensures Arriving(s, k, law, c)(x) >= 0.0
    {
      assert ValidLadder(s, c[k := x]);
      MovePositive(s, k, x, c[k]);
      NonNegativeProduct(law(c[k := x]), Move(s, k)(x, c[k]));
    }
  }

  lemma AfterMoveNonNegative(s: Setting, k: nat, law: Law)
    requires ValidSetting(s) && k < |s.powers| && NonNegative(s, law)
    ensures NonNegative(s, AfterMove(s, k, law))
  {
    hide Move, Arriving, NonNegative;
    forall c | ValidLadder(s, c)
      ensures AfterMove(s, k, law)(c) >= 0.0
    {
      ArrivingNonNegative(s, k, law, c);
      TreeNonNegative(s, [], Arriving(s, k, law, c));
    }
    assert NonNegative(s, AfterMove(s, k, law)) by { Gathered(s, AfterMove(s, k, law)); }
  }

  lemma Gathered(s: Setting, law: Law)
    requires forall c :: ValidLadder(s, c) ==> law(c) >= 0.0
    ensures NonNegative(s, law)
  {
  }

  /** A move of chain k makes c positive if some ladder that differs in chain k is. */
  lemma AfterMovePositive(s: Setting, k: nat, law: Law, c: Ladder, x: seq<Token>)
    requires ValidSetting(s) && k < |s.powers| && NonNegative(s, law) && ValidLadder(s, c) && Complete(s, x)
    requires law(c[k := x]) > 0.0
    ensures AfterMove(s, k, law)(c) > 0.0
  {
    ArrivingNonNegative(s, k, law, c);
    MovePositive(s, k, x, c[k]);
    hide Move, NonNegative;
    PositiveProduct(law(c[k := x]), Move(s, k)(x, c[k]));
    assert Arriving(s, k, law, c)(x) > 0.0;
    TreeDominates(s, x, Arriving(s, k, law, c));
  }

  /** c and d agree from chain n on. */
  ghost predicate AgreeFrom(c: Ladder, d: Ladder, n: nat) {
    |c| == |d| && forall j :: n <= j < |c| ==> c[j] == d[j]
  }

  lemma {:induction false} AfterMovesPositive(s: Setting, n: nat, law: Law, d: Ladder, c: Ladder)
    requires ValidSetting(s) && n <= |s.powers| && NonNegative(s, law) && ValidLadder(s, d) && law(d) > 0.0
    requires ValidLadder(s, c) && AgreeFrom(c, d, n)
    ensures NonNegative(s, AfterMoves(s, n, law)) && AfterMoves(s, n, law)(c) > 0.0
  {
    hide NonNegative, AfterMove;
    if n == 0 {
      assert c == d;
    } else {
      var x := d[n - 1];
      assert ValidLadder(s, c[n - 1 := x]) && AgreeFrom(c[n - 1 := x], d, n - 1);
      AfterMovesPositive(s, n - 1, law, d, c[n - 1 := x]);
      AfterMoveNonNegative(s, n - 1, AfterMoves(s, n - 1, law));
      AfterMovePositive(s, n - 1, AfterMoves(s, n - 1, law), c, x);
    }
  }

  ghost predicate Positive(s: Setting, law: Law) {
    forall c :: ValidLadder(s, c) ==> law(c) > 0.0
  }

  lemma AfterSwapPositive(s: Setting, k: nat, law: Law)
    requires ValidSetting(s) && k + 1 < |s.powers| && Positive(s, law)
    ensures Positive(s, AfterSwap(s, k, law))
  {
    forall c | ValidLadder(s, c)
      ensures AfterSwap(s, k, law)(c) > 0.0
    {
      var d := Swapped(c, k);
      assert ValidLadder(s, d);
      hide SwapLogRatio;
      assert 0.0 < SwapChance(s, c, k) <= 1.0 && SwapChance(s, d, k) > 0.0;
      NonNegativeProduct(law(c), 1.0 - SwapChance(s, c, k));
      PositiveProduct(law(d), SwapChance(s, d, k));
    }
  }

  lemma {:induction false} AfterSwapsPositive(s: Setting, n: nat, law: Law)
    requires ValidSetting(s) && n < |s.powers| && Positive(s, law)
    ensures Positive(s, AfterSwaps(s, n, law))
  {
    hide Positive, AfterSwap;
    if n > 0 {
      AfterSwapsPositive(s, n - 1, law);
      AfterSwapPositive(s, n - 1, AfterSwaps(s, n - 1, law));
    }
  }

  /** However little probability a law has, after a round every ladder has some. */
  lemma RoundReachesAll(s: Setting, law: Law, d: Ladder)
    requires ValidSetting(s) && NonNegative(s, law) && ValidLadder(s, d) && law(d) > 0.0
    ensures Positive(s, AfterRound(s, law))
  {
    hide NonNegative, AfterMoves, AfterSwaps;
    var moved := AfterMoves(s, |s.powers|, law);
    forall c | ValidLadder(s, c)
      ensures moved(c) > 0.0
    {
      AfterMovesPositive(s, |s.powers|, law, d, c);
    }
    AfterSwapsPositive(s, |s.powers| - 1, moved);
  }

  // ----- rounds are linear -----

  ghost predicate Combines(s: Setting, f: Law, g: Law, h: Law, a: real, b: real) {
    forall c :: ValidLadder(s, c) ==> h(c) == a * f(c) + b * g(c)
  }

  lemma Distribute(a: real, f: real, b: real, g: real, m: real)
    ensures (a * f + b * g) * m == a * (f * m) + b * (g * m)
  {
    assert (a * f) * m == a * (f * m) && (b * g) * m == b * (g * m);
  }

  lemma ArrivingLinear(s: Setting, k: nat, f: Law, g: Law, h: Law, a: real, b: real, c: Ladder)
    requires ValidSetting(s) && k < |s.powers| && Combines(s, f, g, h, a, b) && ValidLadder(s, c)
    ensures TreeSum(s, [], Arriving(s, k, h, c))
         == a * TreeSum(s, [], Arriving(s, k, f, c)) + b * TreeSum(s, [], Arriving(s, k, g, c))
  {
    hide Move;
    forall x | Complete(s, x)
      ensures Arriving(s, k, h, c)(x) == a * Arriving(s, k, f, c)(x) + b * Arriving(s, k, g, c)(x)
    {
      assert ValidLadder(s, c[k := x]);
      Distribute(a, f(c[k := x]), b, g(c[k := x]), Move(s, k)(x, c[k]));
    }
    hide Arriving, Combines, ValidLadder;
    TreeLinear(s, [], Arriving(s, k, f, c), Arriving(s, k, g, c), Arriving(s, k, h, c), a, b);
  }

  lemma AfterMoveLinear(s: Setting, k: nat, f: Law, g: Law, h: Law, a: real, b: real)
    requires ValidSetting(s) && k < |s.powers| && Combines(s, f, g, h, a, b)
    ensures Combines(s, AfterMove(s, k, f), AfterMove(s, k, g), AfterMove(s, k, h), a, b)
  {
    hide Move, Arriving;
    forall c | ValidLadder(s, c)
      ensures AfterMove(s, k, h)(c) == a * AfterMove(s, k, f)(c) + b * AfterMove(s, k, g)(c)
    {
      ArrivingLinear(s, k, f, g, h, a, b, c);
    }
  }

  lemma {:induction false} AfterMovesLinear(s: Setting, n: nat, f: Law, g: Law, h: Law, a: real, b: real)
    requires ValidSetting(s) && n <= |s.powers| && Combines(s, f, g, h, a, b)
    ensures Combines(s, AfterMoves(s, n, f), AfterMoves(s, n, g), AfterMoves(s, n, h), a, b)
  {
    hide Combines, AfterMove;
    if n > 0 {
      AfterMovesLinear(s, n - 1, f, g, h, a, b);
      AfterMoveLinear(s, n - 1, AfterMoves(s, n - 1, f), AfterMoves(s, n - 1, g), AfterMoves(s, n - 1, h), a, b);
    }
  }

  lemma AfterSwapLinear(s: Setting, k: nat, f: Law, g: Law, h: Law, a: real, b: real)
    requires ValidSetting(s) && k + 1 < |s.powers| && Combines(s, f, g, h, a, b)
    ensures Combines(s, AfterSwap(s, k, f), AfterSwap(s, k, g), AfterSwap(s, k, h), a, b)
  {
    hide SwapChance;
    forall c | ValidLadder(s, c)
      ensures AfterSwap(s, k, h)(c) == a * AfterSwap(s, k, f)(c) + b * AfterSwap(s, k, g)(c)
    {
      var d := Swapped(c, k);
      assert ValidLadder(s, d);
      Distribute(a, f(c), b, g(c), 1.0 - SwapChance(s, c, k));
      Distribute(a, f(d), b, g(d), SwapChance(s, d, k));
    }
  }

  lemma {:induction false} AfterSwapsLinear(s: Setting, n: nat, f: Law, g: Law, h: Law, a: real, b: real)
    requires ValidSetting(s) && n < |s.powers| && Combines(s, f, g, h, a, b)
    ensures Combines(s, AfterSwaps(s, n, f), AfterSwaps(s, n, g), AfterSwaps(s, n, h), a, b)
  {
    hide Combines, AfterSwap;
    if n > 0 {
      AfterSwapsLinear(s, n - 1, f, g, h, a, b);
      AfterSwapLinear(s, n - 1, AfterSwaps(s, n - 1, f), AfterSwaps(s, n - 1, g), AfterSwaps(s, n - 1, h), a, b);
    }
  }

  lemma AfterRoundLinear(s: Setting, f: Law, g: Law, h: Law, a: real, b: real)
    requires ValidSetting(s) && Combines(s, f, g, h, a, b)
    ensures Combines(s, AfterRound(s, f), AfterRound(s, g), AfterRound(s, h), a, b)
  {
    hide Combines, AfterMoves, AfterSwaps;
    var n := |s.powers|;
    AfterMovesLinear(s, n, f, g, h, a, b);
    AfterSwapsLinear(s, n - 1, AfterMoves(s, n, f), AfterMoves(s, n, g), AfterMoves(s, n, h), a, b);
  }

  // ----- there are finitely many ladders -----

  /** Every completed sequence that extends p. */
  ghost function Completions(s: Setting, p: seq<Token>): seq<seq<Token>>
    decreases s.horizon - |p|, s.vocab + 1
  {
    if Done(s, p) then [p] else BranchCompletions(s, p, s.vocab)
  }

  ghost function BranchCompletions(s: Setting, p: seq<Token>, n: nat): seq<seq<Token>>
    requires !Done(s, p)
    decreases s.horizon - |p|, n
  {
    if n == 0 then [] else BranchCompletions(s, p, n - 1) + Completions(s, p + [n - 1])
  }

  lemma {:induction false} Completed(s: Setting, p: seq<Token>, y: seq<Token>)
    requires ValidSetting(s) && Complete(s, y) && p <= y
    ensures y in Completions(s, p)
    decreases |y| - |p|
  {
    if p == y {
      assert Done(s, p);
    } else {
      assert p == y[..|p|];
      PrefixOpen(s, y, |p|);
      assert p + [y[|p|]] <= y;
      Completed(s, p + [y[|p|]], y);
      BranchCompleted(s, p, y[|p|], s.vocab, y);
    }
  }

  lemma {:induction false} BranchCompleted(s: Setting, p: seq<Token>, t: nat, n: nat, y: seq<Token>)
    requires !Done(s, p) && t < n && y in Completions(s, p + [t])
    ensures y in BranchCompletions(s, p, n)
    decreases n
  {
    if t < n - 1 {
      BranchCompleted(s, p, t, n - 1, y);
    }
  }

  ghost function WithOne(cs: seq<Ladder>, x: seq<Token>): seq<Ladder> {
    seq(|cs|, i requires 0 <= i < |cs| => cs[i] + [x])
  }

  ghost function WithEach(cs: seq<Ladder>, xs: seq<seq<Token>>): seq<Ladder> {
    if xs == [] then [] else WithEach(cs, xs[..|xs| - 1]) + WithOne(cs, xs[|xs| - 1])
  }

  /** Every ladder of n of the sequences. */
  ghost function Ladders(xs: seq<seq<Token>>, n: nat): seq<Ladder> {
    if n == 0 then [[]] else WithEach(Ladders(xs, n - 1), xs)
  }

  lemma {:induction false} WithEachHas(cs: seq<Ladder>, xs: seq<seq<Token>>, c: Ladder, x: seq<Token>)
    requires c in cs && x in xs
    ensures c + [x] in WithEach(cs, xs)
  {
    var n := |xs| - 1;
    if x == xs[n] {
      var i :| 0 <= i < |cs| && cs[i] == c;
      assert WithOne(cs, x)[i] == c + [x];
      assert c + [x] in WithOne(cs, x);
    } else {
      assert xs == xs[..n] + [xs[n]];
      WithEachHas(cs, xs[..n], c, x);
    }
  }

  lemma {:induction false} LaddersHave(xs: seq<seq<Token>>, n: nat, c: Ladder)
    requires |c| == n && forall k :: 0 <= k < n ==> c[k] in xs
    ensures c in Ladders(xs, n)
  {
    if n == 0 {
      assert c == [];
    } else {
      LaddersHave(xs, n - 1, c[..n - 1]);
      WithEachHas(Ladders(xs, n - 1), xs, c[..n - 1], c[n - 1]);
      assert c == c[..n - 1] + [c[n - 1]];
    }
  }

  lemma {:induction false} Largest(s: Setting, f: Law, cs: seq<Ladder>, d: Ladder) returns (best: Ladder)
    requires ValidLadder(s, d)
    ensures ValidLadder(s, best) && f(best) >= f(d)
    ensures forall c :: c in cs && ValidLadder(s, c) ==> f(c) <= f(best)
  {
    hide ValidLadder;
    if cs == [] {
      best := d;
    } else {
      var n := |cs| - 1;
      best := Largest(s, f, cs[..n], d);
      assert cs == cs[..n] + [cs[n]];
      if ValidLadder(s, cs[n]) && f(cs[n]) > f(best) {
        best := cs[n];
      }
    }
  }

  /** Some ladder makes f largest. */
  lemma MaximumAttained(s: Setting, f: Law, d: Ladder) returns (best: Ladder)
    requires ValidSetting(s) && ValidLadder(s, d)
    ensures ValidLadder(s, best) && forall c :: ValidLadder(s, c) ==> f(c) <= f(best)
  {
    var xs := Completions(s, []);
    var n := |s.powers|;
    best := Largest(s, f, Ladders(xs, n), d);
    forall c | ValidLadder(s, c)
      ensures c in Ladders(xs, n)
    {
      forall k | 0 <= k < n
        ensures c[k] in xs
      {
        Completed(s, [], c[k]);
      }
      LaddersHave(xs, n, c);
    }
  }

  // ----- the joint target is the only one -----

  ghost predicate Kept(s: Setting, law: Law)
    requires ValidSetting(s)
  {
    forall c :: ValidLadder(s, c) ==> AfterRound(s, law)(c) == law(c)
  }

  ghost predicate Multiple(s: Setting, law: Law, m: real) {
    forall c :: ValidLadder(s, c) ==> law(c) == m * Joint(s, c)
  }

  ghost function JointLaw(s: Setting): Law {
    (c: Ladder) => if |c| == |s.powers| then Joint(s, c) else 0.0
  }

  lemma JointKept(s: Setting)
    requires ValidSetting(s)
    ensures Kept(s, JointLaw(s)) && forall c :: ValidLadder(s, c) ==> Joint(s, c) > 0.0
  {
    AfterRoundKeepsJoint(s, JointLaw(s));
    hide AfterRound, JointLog;
  }

  lemma CombinationKept(s: Setting, f: Law, g: Law, h: Law, a: real, b: real)
    requires ValidSetting(s) && Kept(s, f) && Kept(s, g) && Combines(s, f, g, h, a, b)
    ensures Kept(s, h)
  {
    AfterRoundLinear(s, f, g, h, a, b);
    hide AfterRound;
  }

  /** A law that is kept, at most a multiple of the joint target, and equal to it somewhere, is
      that multiple. */
  lemma TouchingIsMultiple(s: Setting, law: Law, m: real, best: Ladder)
    requires ValidSetting(s) && Kept(s, law) && ValidLadder(s, best)
    requires forall c :: ValidLadder(s, c) ==> law(c) <= m * Joint(s, c)
    requires law(best) == m * Joint(s, best)
    ensures Multiple(s, law, m)
  {
    var gap: Law := (c: Ladder) => m * JointLaw(s)(c) - law(c);
    JointKept(s);
    assert Combines(s, JointLaw(s), law, gap, m, -1.0);
    CombinationKept(s, JointLaw(s), law, gap, m, -1.0);
    hide Joint, AfterRound;
    assert NonNegative(s, gap) && gap(best) == 0.0;
    forall d | ValidLadder(s, d)
      ensures gap(d) == 0.0
    {
      if gap(d) > 0.0 {
        RoundReachesAll(s, gap, d);
      }
    }
  }

  lemma RatioBounds(l: real, j: real, m: real)
    requires j > 0.0 && l / j <= m
    ensures l <= m * j
  {
    var q := l / j;
    assert l == q * j;
    NonNegativeProduct(m - q, j);
    assert (m - q) * j == m * j - q * j;
  }

  lemma RatioEquals(l: real, j: real)
    requires j > 0.0
    ensures l == (l / j) * j && (l >= 0.0 ==> l / j >= 0.0)
  {
  }

  lemma KeptIsMultiple(s: Setting, law: Law, d: Ladder) returns (m: real)
    requires ValidSetting(s) && NonNegative(s, law) && Kept(s, law) && ValidLadder(s, d)
    ensures m >= 0.0 && Multiple(s, law, m)
  {
    JointKept(s);
    hide Joint, AfterRound, Kept, Multiple;
    var ratio: Law := (c: Ladder) => if |c| == |s.powers| && Joint(s, c) > 0.0 then law(c) / Joint(s, c) else 0.0;
    var best := MaximumAttained(s, ratio, d);
    m := ratio(best);
    RatioEquals(law(best), Joint(s, best));
    forall c | ValidLadder(s, c)
      ensures law(c) <= m * Joint(s, c)
    {
      assert ratio(c) <= ratio(best);
      RatioBounds(law(c), Joint(s, c), m);
    }
    TouchingIsMultiple(s, law, m, best);
  }

  /** A non-negative law on ladders is left unchanged by a round if and only if it is a multiple
      of the product of the tempered targets: what the sampler converges to, if it does, is
      that product. */
  lemma KeptExactly(s: Setting, law: Law)
    requires ValidSetting(s) && NonNegative(s, law)
    ensures Kept(s, law) <==> exists m :: m >= 0.0 && Multiple(s, law, m)
  {
    hide AfterRound, Joint;
    if Kept(s, law) {
      if d :| ValidLadder(s, d) {
        var m := KeptIsMultiple(s, law, d);
      } else {
        assert Multiple(s, law, 0.0);
      }
    }
    if m :| m >= 0.0 && Multiple(s, law, m) {
      JointKept(s);
      assert Combines(s, JointLaw(s), JointLaw(s), law, m, 0.0);
      CombinationKept(s, JointLaw(s), JointLaw(s), law, m, 0.0);
    }
  }
}
