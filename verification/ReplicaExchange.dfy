/** The ladder of chains: neighbour swaps, whole rounds, and the joint distribution that any
    number of rounds leaves unchanged. */
module ReplicaExchange {
  import opened TemperedModel
  import opened TreeSums
  import opened Kernels
  import opened MetropolisMove

  /** One completed sequence per power. */
  type Ladder = seq<seq<Token>>

  ghost predicate ValidLadder(s: Setting, c: Ladder) {
    |c| == |s.powers| && forall k :: 0 <= k < |c| ==> Complete(s, c[k])
  }

  /** The log of the product of the first n chains' targets. */
  ghost function JointLog(s: Setting, c: Ladder, n: nat): real
    requires n <= |s.powers| && |c| == |s.powers|
  {
    if n == 0 then 0.0 else JointLog(s, c, n - 1) + Tempered(s, n - 1, LogpSum(s, c[n - 1]))
  }

  /** The product of the chains' tempered targets. */
  ghost function Joint(s: Setting, c: Ladder): real
    requires |c| == |s.powers|
  {
    s.exp(JointLog(s, c, |s.powers|))
  }

  // ----- swaps -----

  function Swapped(c: Ladder, k: nat): (d: Ladder)
    requires k + 1 < |c|
    ensures |d| == |c|
  {
    c[k := c[k + 1]][k + 1 := c[k]]
  }

  /** The log-ratio the code computes from the two records' cached log-probabilities. */
  function SwapLogRatio(s: Setting, c: Ladder, k: nat): real
    requires k + 1 < |c| == |s.powers|
  {
    (s.powers[k + 1] - s.powers[k]) * (LogpSum(s, c[k]) - LogpSum(s, c[k + 1]))
  }

  function SwapChance(s: Setting, c: Ladder, k: nat): real
    requires k + 1 < |c| == |s.powers|
  {
    MinOne(s.exp(SwapLogRatio(s, c, k)))
  }

  lemma {:induction false} JointLogUpdate(s: Setting, c: Ladder, k: nat, x: seq<Token>, n: nat)
    requires k < |c| == |s.powers| && n <= |c|
    ensures JointLog(s, c[k := x], n)
         == JointLog(s, c, n) + if k < n then Tempered(s, k, LogpSum(s, x)) - Tempered(s, k, LogpSum(s, c[k])) else 0.0
  {
    if n > 0 {
      JointLogUpdate(s, c, k, x, n - 1);
    }
  }

  lemma SwapTerms(s: Setting, c: Ladder, k: nat)
    requires k + 1 < |c| == |s.powers|
    ensures SwapLogRatio(s, c, k)
         == Tempered(s, k, LogpSum(s, c[k + 1])) - Tempered(s, k, LogpSum(s, c[k]))
            + Tempered(s, k + 1, LogpSum(s, c[k])) - Tempered(s, k + 1, LogpSum(s, c[k + 1]))
  {
  }

  /** A swap changes the joint log-probability by exactly its log-ratio, and swapping back
      has the opposite ratio. */
  lemma SwapChangesJoint(s: Setting, c: Ladder, k: nat)
    requires k + 1 < |c| == |s.powers|
    ensures JointLog(s, Swapped(c, k), |c|) == JointLog(s, c, |c|) + SwapLogRatio(s, c, k)
    ensures SwapLogRatio(s, Swapped(c, k), k) == -SwapLogRatio(s, c, k)
  {
    JointLogUpdate(s, c, k, c[k + 1], |c|);
    JointLogUpdate(s, c[k := c[k + 1]], k + 1, c[k], |c|);
    SwapTerms(s, c, k);
    SwapTerms(s, Swapped(c, k), k);
  }

  /** Detailed balance of a neighbour swap for the joint target. */
  lemma SwapReversible(s: Setting, c: Ladder, k: nat)
    requires ValidSetting(s) && k + 1 < |c| == |s.powers|
    ensures Swapped(Swapped(c, k), k) == c
    ensures Joint(s, c) * SwapChance(s, c, k) == Joint(s, Swapped(c, k)) * SwapChance(s, Swapped(c, k), k)
  {
    hide JointLog, SwapLogRatio;
    var d := Swapped(c, k);
    SwapChangesJoint(s, c, k);
    var j, ratio := JointLog(s, c, |c|), SwapLogRatio(s, c, k);
    SmallerOf(s, j, ratio);
    SmallerOf(s, j + ratio, -ratio);
    assert j + ratio + -ratio == j;
  }

  lemma SmallerOf(s: Setting, j: real, ratio: real)
    requires Analytic(s)
    ensures s.exp(j) * MinOne(s.exp(ratio)) == if s.exp(j + ratio) < s.exp(j) then s.exp(j + ratio) else s.exp(j)
  {
    ExpSum(s, j, ratio);
    ExpZero(s);
    ExpStrict(s, ratio, 0.0);
    ExpStrict(s, j + ratio, j);
  }

  // ----- distributions over ladders -----

  type Law = Ladder -> real

  /** The distribution after one move of chain k, from the distribution before it. */
  ghost function AfterMove(s: Setting, k: nat, law: Law): Law
    requires ValidSetting(s) && k < |s.powers|
  {
    (c: Ladder) => if |c| == |s.powers| then TreeSum(s, [], Arriving(s, k, law, c)) else 0.0
  }

  /** The probability of the ladders that differ from c in chain k, moving to c. */
  ghost function Arriving(s: Setting, k: nat, law: Law, c: Ladder): Measure
    requires ValidSetting(s) && k < |s.powers| == |c|
  {
    x => law(c[k := x]) * Move(s, k)(x, c[k])
  }

  /** The distribution after the swap attempt between chains k and k + 1. */
  ghost function AfterSwap(s: Setting, k: nat, law: Law): Law
    requires k + 1 < |s.powers|
  {
    (c: Ladder) =>
      if |c| == |s.powers| then
        law(c) * (1.0 - SwapChance(s, c, k)) + law(Swapped(c, k)) * SwapChance(s, Swapped(c, k), k)
      else 0.0
  }

  ghost function AfterMoves(s: Setting, n: nat, law: Law): Law
    requires ValidSetting(s) && n <= |s.powers|
  {
    if n == 0 then law else AfterMove(s, n - 1, AfterMoves(s, n - 1, law))
  }

  ghost function AfterSwaps(s: Setting, n: nat, law: Law): Law
    requires n < |s.powers|
  {
    if n == 0 then law else AfterSwap(s, n - 1, AfterSwaps(s, n - 1, law))
  }

  /** The distribution after a round: every chain moves, then every neighbour pair may swap. */
  ghost function AfterRound(s: Setting, law: Law): Law
    requires ValidSetting(s)
  {
    AfterSwaps(s, |s.powers| - 1, AfterMoves(s, |s.powers|, law))
  }

  ghost function AfterRounds(s: Setting, rounds: nat, law: Law): Law
    requires ValidSetting(s)
  {
    if rounds == 0 then law else AfterRound(s, AfterRounds(s, rounds - 1, law))
  }

  ghost predicate IsJoint(s: Setting, law: Law) {
    forall c :: ValidLadder(s, c) ==> law(c) == Joint(s, c)
  }

  /** The part of the joint probability that does not depend on chain k. */
  ghost function OtherChains(s: Setting, c: Ladder, k: nat): real
    requires k < |c| == |s.powers|
  {
    s.exp(JointLog(s, c, |c|) - Tempered(s, k, LogpSum(s, c[k])))
  }

  lemma JointFactor(s: Setting, c: Ladder, k: nat, x: seq<Token>)
    requires ValidSetting(s) && k < |c| == |s.powers|
    ensures Joint(s, c[k := x]) == OtherChains(s, c, k) * Target(s, k, x)
  {
    JointLogUpdate(s, c, k, x, |c|);
    ExpSum(s, JointLog(s, c, |c|) - Tempered(s, k, LogpSum(s, c[k])), Tempered(s, k, LogpSum(s, x)));
  }

  lemma ArrivingFactor(s: Setting, k: nat, law: Law, c: Ladder, x: seq<Token>)
    requires ValidSetting(s) && k < |s.powers| && IsJoint(s, law) && ValidLadder(s, c) && Complete(s, x)
    ensures Arriving(s, k, law, c)(x) == OtherChains(s, c, k) * Inflow(TargetOf(s, k), Move(s, k), c[k])(x)
  {
    assert ValidLadder(s, c[k := x]);
    JointFactor(s, c, k, x);
    Product(law(c[k := x]), OtherChains(s, c, k), TargetOf(s, k)(x), Move(s, k)(x, c[k]));
  }

  lemma ArrivingTotal(s: Setting, k: nat, law: Law, c: Ladder)
    requires ValidSetting(s) && k < |s.powers| && IsJoint(s, law) && ValidLadder(s, c)
    ensures TreeSum(s, [], Arriving(s, k, law, c)) == OtherChains(s, c, k) * Target(s, k, c[k])
  {
    hide IsJoint, Arriving, Inflow, OtherChains, Move, Target;
    var inflow, arriving := Inflow(TargetOf(s, k), Move(s, k), c[k]), Arriving(s, k, law, c);
    forall x | Complete(s, x)
      ensures arriving(x) == OtherChains(s, c, k) * inflow(x)
    {
      ArrivingFactor(s, k, law, c, x);
    }
    MoveInvariant(s, k, c[k]);
    TreeScaled(s, [], inflow, arriving, OtherChains(s, c, k), Target(s, k, c[k]));
  }

  lemma AfterMoveKeepsJoint(s: Setting, k: nat, law: Law)
    requires ValidSetting(s) && k < |s.powers| && IsJoint(s, law)
    ensures IsJoint(s, AfterMove(s, k, law))
  {
    forall c | ValidLadder(s, c)
      ensures AfterMove(s, k, law)(c) == Joint(s, c)
    {
      ArrivingTotal(s, k, law, c);
      JointFactor(s, c, k, c[k]);
      assert c[k := c[k]] == c;
    }
  }

  lemma Product(j: real, rest: real, t: real, m: real)
    requires j == rest * t
    ensures j * m == rest * (t * m)
  {
  }

  lemma AfterSwapKeepsJoint(s: Setting, k: nat, law: Law)
    requires ValidSetting(s) && k + 1 < |s.powers| && IsJoint(s, law)
    ensures IsJoint(s, AfterSwap(s, k, law))
  {
    forall c | ValidLadder(s, c)
      ensures AfterSwap(s, k, law)(c) == Joint(s, c)
    {
      var d := Swapped(c, k);
      assert ValidLadder(s, d);
      SwapReversible(s, c, k);
      StayAndArrive(law(c), SwapChance(s, c, k), law(d), SwapChance(s, d, k));
    }
  }

  lemma StayAndArrive(p: real, a: real, q: real, b: real)
    requires p * a == q * b
    ensures p * (1.0 - a) + q * b == p
  {
  }

  lemma {:induction false} AfterMovesKeepJoint(s: Setting, n: nat, law: Law)
    requires ValidSetting(s) && n <= |s.powers| && IsJoint(s, law)
    ensures IsJoint(s, AfterMoves(s, n, law))
  {
    hide IsJoint, AfterMove;
    if n > 0 {
      AfterMovesKeepJoint(s, n - 1, law);
      AfterMoveKeepsJoint(s, n - 1, AfterMoves(s, n - 1, law));
    }
  }

  lemma {:induction false} AfterSwapsKeepJoint(s: Setting, n: nat, law: Law)
    requires ValidSetting(s) && n < |s.powers| && IsJoint(s, law)
    ensures IsJoint(s, AfterSwaps(s, n, law))
  {
    hide IsJoint, AfterSwap;
    if n > 0 {
      AfterSwapsKeepJoint(s, n - 1, law);
      AfterSwapKeepsJoint(s, n - 1, AfterSwaps(s, n - 1, law));
    }
  }

  lemma AfterRoundKeepsJoint(s: Setting, law: Law)
    requires ValidSetting(s) && IsJoint(s, law)
    ensures IsJoint(s, AfterRound(s, law))
  {
    hide IsJoint, AfterMoves, AfterSwaps;
    AfterMovesKeepJoint(s, |s.powers|, law);
    AfterSwapsKeepJoint(s, |s.powers| - 1, AfterMoves(s, |s.powers|, law));
  }

  /** Any number of rounds of restarts and swaps leaves the product of the tempered targets
      unchanged, for every base model, ladder and horizon. */
  lemma {:induction false} RoundsKeepJoint(s: Setting, rounds: nat, law: Law)
    requires ValidSetting(s) && IsJoint(s, law)
    ensures IsJoint(s, AfterRounds(s, rounds, law))
  {
    hide IsJoint, AfterRound;
    if rounds > 0 {
      RoundsKeepJoint(s, rounds - 1, law);
      AfterRoundKeepsJoint(s, AfterRounds(s, rounds - 1, law));
    }
  }
}
