/** What one run of the sampler does at each of its random draws, in terms of the targets, the
    proposal probabilities and the joint target. */
module SamplerRule {
  import opened TemperedModel
  import opened MetropolisMove
  import opened ReplicaExchange
  import opened PowerSampler

  // ----- moves -----

  /** The Metropolis-Hastings rule: chain k holding x leaves for its candidate y exactly when the
      uniform draw, times the flow proposed from x to y, is below the flow proposed back. */
  ghost predicate Moves(s: Setting, d: Draws, i: nat, k: nat, x: seq<Token>)
    requires ValidSetting(s) && k < |s.powers|
  {
    var r := d.restart(i, k);
    r < |x|
    && var y := Candidate(d, i, k, x);
    d.moveDraw(i, k) * (Target(s, k, x) * Propose(s, k, r)(x, y)) < Target(s, k, y) * Propose(s, k, r)(y, x)
  }

  /** The flow proposed from x to y: a factor symmetric in x and y, and a normaliser of y alone. */
  lemma ProposedFlow(s: Setting, k: nat, r: nat, x: seq<Token>, y: seq<Token>)
    requires ValidSetting(s) && k < |s.powers|
    requires r < |x| && r < |y| && x[..r] == y[..r]
    ensures Target(s, k, x) * Propose(s, k, r)(x, y)
         == s.exp(Tempered(s, k, Total(LogpList(s, x[..r]))) + (SuffixLogp(s, k, r, x) + SuffixLogp(s, k, r, y)))
            * s.exp(-SuffixZeta(s, k, r, y))
  {
    TargetSplits(s, k, r, x);
    ProposeValue(s, k, r, x, y);
    FlowSplits(s, Tempered(s, k, Total(LogpList(s, x[..r]))), SuffixLogp(s, k, r, x), SuffixLogp(s, k, r, y),
               SuffixZeta(s, k, r, y));
  }

  lemma FlowSplits(s: Setting, head: real, ax: real, ay: real, zy: real)
    requires Analytic(s)
    ensures s.exp(head + ax) * s.exp(ay - zy) == s.exp(head + (ax + ay)) * s.exp(-zy)
  {
    ExpSum(s, head + ax, ay - zy);
    ExpSum(s, head + (ax + ay), -zy);
    assert head + ax + (ay - zy) == head + (ax + ay) + -zy;
  }

  /** With flows e * dy forward and e * dx back, the draw is below the acceptance probability
      exactly when it is below the ratio of the flows. */
  lemma DrawBelowRatio(s: Setting, u: real, e: real, zx: real, zy: real)
    requires Analytic(s) && 0.0 < u < 1.0 && e > 0.0
    ensures u < MinOne(s.exp(zy - zx)) <==> u * (e * s.exp(-zy)) < e * s.exp(-zx)
  {
    ExpSum(s, zy - zx, -zy);
    assert zy - zx + -zy == -zx;
    var a, dx, dy := s.exp(zy - zx), s.exp(-zx), s.exp(-zy);
    Scaled(u, a, dy);
    Scaled(u * dy, dx, e);
    assert u * dy * e == u * (e * dy);
  }

  lemma Scaled(a: real, b: real, c: real)
    requires c > 0.0
    ensures a < b <==> a * c < b * c
  {
    assert (b - a) * c == b * c - a * c;
  }

  lemma MovesByAcceptance(s: Setting, d: Draws, i: nat, k: nat, x: seq<Token>)
    requires ValidSetting(s) && ValidDraws(s, d) && k < |s.powers| && Complete(s, x) && d.restart(i, k) < |x|
    ensures Moves(s, d, i, k, x)
       <==> d.moveDraw(i, k) < AcceptChance(s, k, d.restart(i, k), x, Candidate(d, i, k, x))
  {
    hide Target, Propose, Tempered, Complete, Total, LogpList, ZetaList;
    var r, y, u := d.restart(i, k), Candidate(d, i, k, x), d.moveDraw(i, k);
    CandidateComplete(s, d, i, k, x);
    assert y[..r] == x[..r];
    ProposedFlow(s, k, r, x, y);
    ProposedFlow(s, k, r, y, x);
    var head, ax, ay := Tempered(s, k, Total(LogpList(s, x[..r]))), SuffixLogp(s, k, r, x), SuffixLogp(s, k, r, y);
    assert head + (ax + ay) == head + (ay + ax);
    DrawBelowRatio(s, u, s.exp(head + (ax + ay)), SuffixZeta(s, k, r, x), SuffixZeta(s, k, r, y));
  }

  /** One try of chain k: a restart past the end changes nothing; any other restart is one try
      that generates the candidate's suffix, and the chain takes the candidate, counted as
      accepted, exactly by the rule. No other chain changes. */
  lemma MoveByRule(s: Setting, d: Draws, i: nat, k: nat, run: Run)
    requires ValidSetting(s) && ValidDraws(s, d) && k < |s.powers| && ValidLadder(s, run.chains)
    ensures var r, x, after := d.restart(i, k), run.chains[k], MoveChain(s, d, i, k, run);
      && (r >= |x| ==> after == run)
      && (r < |x| ==>
            && after.attempted == run.attempted + 1 && after.swaps == run.swaps
            && after.generated == run.generated + |d.suffix(i, k, x[..r])|)
      && (Moves(s, d, i, k, x) ==>
            after.chains == run.chains[k := Candidate(d, i, k, x)] && after.accepted == run.accepted + 1)
      && (!Moves(s, d, i, k, x) ==> after.chains == run.chains && after.accepted == run.accepted)
  {
    hide AcceptChance, Moves, Complete;
    if d.restart(i, k) < |run.chains[k]| {
      MovesByAcceptance(s, d, i, k, run.chains[k]);
    } else {
      StaysPastEnd(s, d, i, k, run.chains[k]);
    }
  }

  lemma StaysPastEnd(s: Setting, d: Draws, i: nat, k: nat, x: seq<Token>)
    requires ValidSetting(s) && k < |s.powers| && d.restart(i, k) >= |x|
    ensures !Moves(s, d, i, k, x)
  {
  }

  /** The chain after its try. */
  ghost function Moved(s: Setting, d: Draws, i: nat, k: nat, x: seq<Token>): seq<Token>
    requires ValidSetting(s) && k < |s.powers|
  {
    if Moves(s, d, i, k, x) then Candidate(d, i, k, x) else x
  }

  ghost function Tried(d: Draws, i: nat, n: nat, c: Ladder): set<nat>
    requires n <= |c|
  {
    set k: nat | k < n && d.restart(i, k) < |c[k]|
  }

  /** The tokens generated by the tries: what each candidate adds after its restart position. */
  ghost function Regenerated(d: Draws, i: nat, n: nat, c: Ladder): int
    requires n <= |c|
  {
    if n == 0 then 0
    else Regenerated(d, i, n - 1, c)
         + if d.restart(i, n - 1) < |c[n - 1]| then |d.suffix(i, n - 1, c[n - 1][..d.restart(i, n - 1)])| else 0
  }

  ghost function Accepting(s: Setting, d: Draws, i: nat, n: nat, c: Ladder): set<nat>
    requires ValidSetting(s) && n <= |c| == |s.powers|
  {
    set k: nat | k < n && Moves(s, d, i, k, c[k])
  }

  /** A pass of moves treats every chain by the rule on what it held before the pass, and counts
      the chains tried and the chains that moved. */
  lemma {:induction false} MovesByRule(s: Setting, d: Draws, i: nat, n: nat, run: Run)
    requires ValidSetting(s) && ValidDraws(s, d) && n <= |s.powers| && ValidLadder(s, run.chains)
    ensures var after := MoveChains(s, d, i, n, run);
      && (forall k :: 0 <= k < n ==> after.chains[k] == Moved(s, d, i, k, run.chains[k]))
      && after.chains[n..] == run.chains[n..]
      && after.attempted == run.attempted + |Tried(d, i, n, run.chains)|
      && after.accepted == run.accepted + |Accepting(s, d, i, n, run.chains)|
      && after.generated == run.generated + Regenerated(d, i, n, run.chains) && after.swaps == run.swaps
  {
    hide MoveChain, Moves, Complete, ValidDraws;
    if n == 0 {
      assert Tried(d, i, 0, run.chains) == {} && Accepting(s, d, i, 0, run.chains) == {};
    } else {
      var k, before := n - 1, MoveChains(s, d, i, n - 1, run);
      MovesByRule(s, d, i, k, run);
      MoveChainsValid(s, d, i, k, run);
      assert before.chains[k] == before.chains[k..][0] == run.chains[k];
      MoveByRule(s, d, i, k, before);
      CountsGrow(s, d, i, k, run.chains);
      StaysIfUntried(s, d, i, k, run.chains[k]);
      assert before.chains[n..] == before.chains[k..][1..] == run.chains[n..];
    }
  }

  lemma StaysIfUntried(s: Setting, d: Draws, i: nat, k: nat, x: seq<Token>)
    requires ValidSetting(s) && k < |s.powers|
    ensures Moves(s, d, i, k, x) ==> d.restart(i, k) < |x|
  {
  }

  lemma CountsGrow(s: Setting, d: Draws, i: nat, k: nat, c: Ladder)
    requires ValidSetting(s) && k < |c| == |s.powers|
    ensures |Tried(d, i, k + 1, c)| == |Tried(d, i, k, c)| + if d.restart(i, k) < |c[k]| then 1 else 0
    ensures |Accepting(s, d, i, k + 1, c)| == |Accepting(s, d, i, k, c)| + if Moves(s, d, i, k, c[k]) then 1 else 0
  {
    hide Moves;
    OneMore(k, (j: nat) => j < |c| && d.restart(i, j) < |c[j]|, Tried(d, i, k, c), Tried(d, i, k + 1, c));
    OneMore(k, (j: nat) => j < |c| && Moves(s, d, i, j, c[j]), Accepting(s, d, i, k, c), Accepting(s, d, i, k + 1, c));
  }

  lemma OneMore(k: nat, p: nat -> bool, some: set<nat>, more: set<nat>)
    requires forall j: nat :: j in some <==> j < k && p(j)
    requires forall j: nat :: j in more <==> j < k + 1 && p(j)
    ensures |more| == |some| + if p(k) then 1 else 0
  {
    assert more == some + if p(k) then {k} else {};
  }

  // ----- swaps -----

  /** Neighbours k and k + 1 swap exactly when the uniform draw, times the joint target of the
      ladder, is below the joint target of the swapped ladder. */
  ghost predicate Swaps(s: Setting, d: Draws, i: nat, k: nat, c: Ladder)
    requires k + 1 < |c| == |s.powers|
  {
    d.swapDraw(i, k) * Joint(s, c) < Joint(s, Swapped(c, k))
  }

  lemma SwapsByChance(s: Setting, d: Draws, i: nat, k: nat, c: Ladder)
    requires ValidSetting(s) && ValidDraws(s, d) && k + 1 < |c| == |s.powers|
    ensures Swaps(s, d, i, k, c) <==> d.swapDraw(i, k) < SwapChance(s, c, k)
  {
    hide JointLog, SwapLogRatio;
    SwapChangesJoint(s, c, k);
    var j, ratio := JointLog(s, c, |c|), SwapLogRatio(s, c, k);
    ExpSum(s, j, ratio);
    Scaled(d.swapDraw(i, k), s.exp(ratio), s.exp(j));
  }

  /** One attempt between neighbours k and k + 1: by the rule the two chains change places,
      counted as one swap; otherwise nothing changes. */
  lemma SwapByRule(s: Setting, d: Draws, i: nat, k: nat, run: Run)
    requires ValidSetting(s) && ValidDraws(s, d) && k + 1 < |run.chains| == |s.powers|
    ensures var after := SwapPair(s, d, i, k, run);
      && (Swaps(s, d, i, k, run.chains) ==>
            && after.swaps == run.swaps + 1 && |after.chains| == |run.chains|
            && after.chains[k] == run.chains[k + 1] && after.chains[k + 1] == run.chains[k]
            && (forall j :: 0 <= j < |run.chains| && j != k && j != k + 1 ==> after.chains[j] == run.chains[j]))
      && (!Swaps(s, d, i, k, run.chains) ==> after == run)
  {
    hide SwapChance, Swaps;
    SwapsByChance(s, d, i, k, run.chains);
  }

  lemma SwapIsLocal(s: Setting, d: Draws, i: nat, k: nat, run: Run)
    requires k + 1 < |run.chains| == |s.powers|
    ensures var after := SwapPair(s, d, i, k, run);
      && |after.chains| == |run.chains|
      && after.chains[..k] == run.chains[..k] && after.chains[k + 2..] == run.chains[k + 2..]
      && after.attempted == run.attempted && after.accepted == run.accepted && after.generated == run.generated
  {
    hide SwapChance;
  }

  /** A pass of swaps goes up the ladder: before attempt n no chain above position n has
      changed, and attempt j settles position j. Swaps generate nothing and try no move. */
  lemma {:induction false} SwapsGoUp(s: Setting, d: Draws, i: nat, n: nat, run: Run)
    requires n < |run.chains| == |s.powers|
    ensures var after := SwapPairs(s, d, i, n, run);
      && after.chains[n + 1..] == run.chains[n + 1..]
      && (forall j :: 0 <= j < n ==> after.chains[j] == SwapPairs(s, d, i, j + 1, run).chains[j])
      && after.attempted == run.attempted && after.accepted == run.accepted && after.generated == run.generated
  {
    hide SwapPair;
    if n > 0 {
      var k, before, after := n - 1, SwapPairs(s, d, i, n - 1, run), SwapPairs(s, d, i, n, run);
      SwapsGoUp(s, d, i, k, run);
      SwapIsLocal(s, d, i, k, before);
      assert before.chains[n + 1..] == before.chains[n..][1..] == run.chains[n + 1..];
      forall j | 0 <= j < k
        ensures after.chains[j] == before.chains[j]
      {
        assert after.chains[..k][j] == before.chains[..k][j];
      }
    }
  }

  /** A pass of swaps is its attempts in order of position. */
  lemma SwapsByRule(s: Setting, d: Draws, i: nat, n: nat, run: Run)
    requires ValidSetting(s) && ValidDraws(s, d) && n + 1 < |s.powers| && ValidLadder(s, run.chains)
    ensures SwapPairs(s, d, i, 0, run) == run
    ensures var before, after := SwapPairs(s, d, i, n, run), SwapPairs(s, d, i, n + 1, run);
      && before.chains[n + 1] == run.chains[n + 1]
      && (Swaps(s, d, i, n, before.chains) ==>
            && after.swaps == before.swaps + 1
            && after.chains[n] == run.chains[n + 1] && after.chains[n + 1] == before.chains[n])
      && (!Swaps(s, d, i, n, before.chains) ==> after == before)
  {
    hide SwapPair, Swaps, ValidDraws;
    SwapPairsValid(s, d, i, n, run);
    SwapsGoUp(s, d, i, n, run);
    var before := SwapPairs(s, d, i, n, run);
    assert before.chains[n + 1] == before.chains[n + 1..][0] == run.chains[n + 1..][0];
    SwapByRule(s, d, i, n, before);
  }

  // ----- rounds -----

  ghost function MovedLadder(s: Setting, d: Draws, i: nat, c: Ladder): Ladder
    requires ValidSetting(s) && |c| == |s.powers|
  {
    seq(|s.powers|, k requires 0 <= k < |s.powers| => Moved(s, d, i, k, c[k]))
  }

  /** A round moves every chain by the rule on what the last round left there, and only then
      makes a whole pass of swaps over the moved ladder: its ladder is a permutation of that, and
      its counters grow by the chains tried, the chains that moved, what was generated, and at
      most one swap per pair. */
  lemma RoundByRule(s: Setting, d: Draws, n: nat)
    requires ValidSetting(s) && ValidDraws(s, d)
    ensures var before, after := Rounds(s, d, n), Rounds(s, d, n + 1);
      && (exists moved: Run :: moved.chains == MovedLadder(s, d, n, before.chains) && moved.swaps == before.swaps
            && after == SwapPairs(s, d, n, |s.powers| - 1, moved))
      && multiset(after.chains) == multiset(MovedLadder(s, d, n, before.chains))
      && after.attempted == before.attempted + |Tried(d, n, |s.powers|, before.chains)|
      && after.accepted == before.accepted + |Accepting(s, d, n, |s.powers|, before.chains)|
      && after.generated == before.generated + Regenerated(d, n, |s.powers|, before.chains)
      && before.swaps <= after.swaps <= before.swaps + |s.powers| - 1
  {
    hide MoveChains, SwapPairs, Start, Moved, Tried, Accepting, ValidDraws;
    var p, before := |s.powers|, Rounds(s, d, n);
    RoundsValid(s, d, n);
    MovesByRule(s, d, n, p, before);
    MoveChainsValid(s, d, n, p, before);
    var moved := MoveChains(s, d, n, p, before);
    assert moved.chains == MovedLadder(s, d, n, before.chains);
    SwapPairsValid(s, d, n, p - 1, moved);
    SwapsGoUp(s, d, n, p - 1, moved);
  }

  ghost function Tokens(c: Ladder): nat {
    if c == [] then 0 else Tokens(c[..|c| - 1]) + |c[|c| - 1]|
  }

  lemma {:induction false} StartTokens(d: Draws, c: Ladder)
    requires forall k :: 0 <= k < |c| ==> c[k] == d.start(k)
    ensures GeneratedAtStart(d, |c|) == Tokens(c)
  {
    if c != [] {
      StartTokens(d, c[..|c| - 1]);
    }
  }

  /** Before the first round every chain holds its own first generation, all of it counted as
      generated, and nothing else is counted. */
  lemma RunStarts(s: Setting, d: Draws)
    requires ValidSetting(s)
    ensures var first := Rounds(s, d, 0);
      && (forall k :: 0 <= k < |s.powers| ==> first.chains[k] == d.start(k))
      && first.generated == Tokens(first.chains)
      && first.attempted == first.accepted == first.swaps == 0
  {
    StartTokens(d, Rounds(s, d, 0).chains);
  }
}
