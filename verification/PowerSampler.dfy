/** The sampler itself: records with cached scores, `extend`, and the parallel-tempering run. */
module PowerSampler {
  import opened TemperedModel
  import opened MetropolisMove
  import opened ReplicaExchange

  /** A token sequence with its cached log-probabilities and, per power, its log-normalisers. */
  datatype Record = Record(tokens: seq<Token>, logp: seq<real>, zeta: seq<seq<real>>) {
    function Prefix(length: nat): Record
      requires length <= |tokens| && length <= |logp|
      requires forall k :: 0 <= k < |zeta| ==> length <= |zeta[k]|
    {
      Record(tokens[..length], logp[..length],
             seq(|zeta|, k requires 0 <= k < |zeta| => zeta[k][..length]))
    }
  }

  /** The record whose caches are recomputed from the tokens. */
  function Score(s: Setting, x: seq<Token>): Record {
    Record(x, LogpList(s, x), seq(|s.powers|, k requires 0 <= k < |s.powers| => ZetaList(s, k, x)))
  }

  /** Every cached value is the one recomputed from its own prefix. */
  predicate Faithful(s: Setting, r: Record) {
    r == Score(s, r.tokens)
  }

  lemma PrefixFaithful(s: Setting, r: Record, length: nat)
    requires Faithful(s, r) && length <= |r.tokens|
    ensures r.Prefix(length) == Score(s, r.tokens[..length])
  {
    ListsOfPrefix(s, r.tokens, length);
  }

  lemma EmptyOpen(s: Setting)
    requires ValidSetting(s)
    ensures !Done(s, []) && Score(s, []).tokens == []
  {
  }

  // ----- the run without caches -----

  /** The random choices of a run: the first generation of every chain and, by round and
      chain, the restart position, what generation adds to a prefix, and the uniform draws. */
  datatype Draws = Draws(
    start: nat -> seq<Token>,
    restart: (nat, nat) -> nat,
    suffix: (nat, nat, seq<Token>) -> seq<Token>,
    moveDraw: (nat, nat) -> real,
    swapDraw: (nat, nat) -> real)

  ghost predicate ValidDraws(s: Setting, d: Draws) {
    && (forall k: nat :: Complete(s, d.start(k)))
    && (forall i: nat, k: nat :: d.restart(i, k) < s.horizon)
    && (forall i: nat, k: nat, p: seq<Token> ::
          Live(s, p) && !Done(s, p) ==> Complete(s, p + d.suffix(i, k, p)))
    && (forall i: nat, k: nat :: 0.0 < d.moveDraw(i, k) < 1.0)
    && (forall i: nat, k: nat :: 0.0 < d.swapDraw(i, k) < 1.0)
  }

  datatype Run = Run(chains: Ladder, attempted: nat, accepted: nat, swaps: nat, generated: nat)

  function Candidate(d: Draws, i: nat, k: nat, x: seq<Token>): seq<Token>
    requires d.restart(i, k) < |x|
  {
    x[..d.restart(i, k)] + d.suffix(i, k, x[..d.restart(i, k)])
  }

  /** Chain k moves to its candidate exactly when the uniform draw is below the acceptance
      probability of the move; a restart past the end is a self-transition. */
  ghost function MoveChain(s: Setting, d: Draws, i: nat, k: nat, run: Run): Run
    requires k < |run.chains| == |s.powers|
  {
    var x, r := run.chains[k], d.restart(i, k);
    if r >= |x| then run
    else
      var y := Candidate(d, i, k, x);
      var tried := run.(attempted := run.attempted + 1, generated := run.generated + |y| - r);
      if d.moveDraw(i, k) < AcceptChance(s, k, r, x, y)
      then tried.(chains := run.chains[k := y], accepted := run.accepted + 1)
      else tried
  }

  ghost function AcceptChance(s: Setting, k: nat, r: nat, x: seq<Token>, y: seq<Token>): real
    requires k < |s.powers|
  {
    Accept(s, k, r)(x, y)
  }

  /** Neighbours k and k + 1 exchange sequences exactly when the uniform draw is below the
      acceptance probability of the swap. */
  ghost function SwapPair(s: Setting, d: Draws, i: nat, k: nat, run: Run): Run
    requires k + 1 < |run.chains| == |s.powers|
  {
    if d.swapDraw(i, k) < SwapChance(s, run.chains, k)
    then run.(chains := Swapped(run.chains, k), swaps := run.swaps + 1)
    else run
  }

  ghost function MoveChains(s: Setting, d: Draws, i: nat, n: nat, run: Run): (r: Run)
    requires n <= |run.chains| == |s.powers|
    ensures |r.chains| == |s.powers|
  {
    if n == 0 then run else MoveChain(s, d, i, n - 1, MoveChains(s, d, i, n - 1, run))
  }

  ghost function SwapPairs(s: Setting, d: Draws, i: nat, n: nat, run: Run): (r: Run)
    requires n < |run.chains| == |s.powers|
    ensures |r.chains| == |s.powers|
  {
    if n == 0 then run else SwapPair(s, d, i, n - 1, SwapPairs(s, d, i, n - 1, run))
  }

  ghost function GeneratedAtStart(d: Draws, n: nat): nat {
    if n == 0 then 0 else GeneratedAtStart(d, n - 1) + |d.start(n - 1)|
  }

  ghost function Start(s: Setting, d: Draws): (r: Run)
    ensures |r.chains| == |s.powers|
  {
    Run(seq(|s.powers|, k requires 0 <= k < |s.powers| => d.start(k)), 0, 0, 0, GeneratedAtStart(d, |s.powers|))
  }

  ghost function Rounds(s: Setting, d: Draws, n: nat): (r: Run)
    requires |s.powers| > 0
    ensures |r.chains| == |s.powers|
  {
    if n == 0 then Start(s, d)
    else SwapPairs(s, d, n - 1, |s.powers| - 1, MoveChains(s, d, n - 1, |s.powers|, Rounds(s, d, n - 1)))
  }

  lemma CandidateComplete(s: Setting, d: Draws, i: nat, k: nat, x: seq<Token>)
    requires ValidDraws(s, d) && Complete(s, x) && d.restart(i, k) < |x|
    ensures Complete(s, Candidate(d, i, k, x)) && d.restart(i, k) < |Candidate(d, i, k, x)|
    ensures !Done(s, x[..d.restart(i, k)])
  {
    PrefixOpen(s, x, d.restart(i, k));
  }

  lemma MoveChainValid(s: Setting, d: Draws, i: nat, k: nat, run: Run)
    requires ValidDraws(s, d) && k < |s.powers| && ValidLadder(s, run.chains)
    ensures var r := MoveChain(s, d, i, k, run);
      ValidLadder(s, r.chains) && r.swaps == run.swaps && run.generated <= r.generated
      && run.accepted <= r.accepted && r.accepted - run.accepted <= r.attempted - run.attempted <= 1
  {
    if d.restart(i, k) < |run.chains[k]| {
      CandidateComplete(s, d, i, k, run.chains[k]);
    }
  }

  lemma {:induction false} MoveChainsValid(s: Setting, d: Draws, i: nat, n: nat, run: Run)
    requires ValidDraws(s, d) && n <= |s.powers| && ValidLadder(s, run.chains)
    ensures var r := MoveChains(s, d, i, n, run);
      ValidLadder(s, r.chains) && r.swaps == run.swaps && run.generated <= r.generated
      && run.accepted <= r.accepted && r.accepted - run.accepted <= r.attempted - run.attempted <= n
  {
    hide MoveChain;
    if n > 0 {
      MoveChainsValid(s, d, i, n - 1, run);
      MoveChainValid(s, d, i, n - 1, MoveChains(s, d, i, n - 1, run));
    }
  }

  lemma SwapPairValid(s: Setting, d: Draws, i: nat, k: nat, run: Run)
    requires k + 1 < |s.powers| && ValidLadder(s, run.chains)
    ensures var r := SwapPair(s, d, i, k, run);
      ValidLadder(s, r.chains) && multiset(r.chains) == multiset(run.chains)
      && run.swaps <= r.swaps <= run.swaps + 1 && r == run.(chains := r.chains, swaps := r.swaps)
  {
  }

  lemma {:induction false} SwapPairsValid(s: Setting, d: Draws, i: nat, n: nat, run: Run)
    requires n < |s.powers| && ValidLadder(s, run.chains)
    ensures var r := SwapPairs(s, d, i, n, run);
      ValidLadder(s, r.chains) && multiset(r.chains) == multiset(run.chains)
      && run.swaps <= r.swaps <= run.swaps + n && r == run.(chains := r.chains, swaps := r.swaps)
  {
    hide SwapPair;
    if n > 0 {
      SwapPairsValid(s, d, i, n - 1, run);
      SwapPairValid(s, d, i, n - 1, SwapPairs(s, d, i, n - 1, run));
    }
  }

  lemma StartValid(s: Setting, d: Draws)
    requires ValidSetting(s) && ValidDraws(s, d)
    ensures ValidLadder(s, Start(s, d).chains)
    ensures Start(s, d).attempted == Start(s, d).accepted == Start(s, d).swaps == 0
  {
  }

  lemma OneMoreRound(n: nat, p: nat)
    requires n > 0
    ensures n * p == (n - 1) * p + p
  {
  }

  /** Every run stays on completed sequences, and its counters are bounded by the tries. */
  lemma {:induction false} RoundsValid(s: Setting, d: Draws, n: nat)
    requires ValidSetting(s) && ValidDraws(s, d)
    ensures ValidLadder(s, Rounds(s, d, n).chains)
    ensures Rounds(s, d, n).accepted <= Rounds(s, d, n).attempted <= n * |s.powers|
    ensures Rounds(s, d, n).swaps <= n * (|s.powers| - 1)
  {
    hide MoveChains, SwapPairs, Start;
    if n == 0 {
      StartValid(s, d);
    } else {
      RoundsValid(s, d, n - 1);
      var before := Rounds(s, d, n - 1);
      var moved := MoveChains(s, d, n - 1, |s.powers|, before);
      MoveChainsValid(s, d, n - 1, |s.powers|, before);
      SwapPairsValid(s, d, n - 1, |s.powers| - 1, moved);
      OneMoreRound(n, |s.powers|);
      OneMoreRound(n, |s.powers| - 1);
    }
  }

  // ----- the implementation -----

  predicate Accepts(s: Setting, u: real, ratio: real) {
    s.log(u) < if ratio < 0.0 then ratio else 0.0
  }

  /** The tokens of every record, with every cache faithful. */
  ghost predicate Holds(s: Setting, chains: seq<Record>, ladder: Ladder) {
    && |chains| == |ladder|
    && forall k :: 0 <= k < |chains| ==> chains[k] == Score(s, ladder[k])
  }

  class Sampler {
    const s: Setting
    var generatedTokens: nat

    constructor (s: Setting)
      ensures this.s == s && generatedTokens == 0
    {
      this.s := s;
      generatedTokens := 0;
    }

    function Empty(): (r: Record)
      ensures r == Score(s, [])
    {
      Record([], [], seq(|s.powers|, _ => []))
    }

    /** Extends the list of every power over positions from..stop. */
    method AppendZeta(zeta: seq<seq<real>>, x: seq<Token>, from: nat, stop: nat) returns (r: seq<seq<real>>)
      requires from <= stop <= |x| && |zeta| == |s.powers|
      requires forall k :: 0 <= k < |zeta| ==> zeta[k] == ZetaList(s, k, x)[..from]
      ensures |r| == |zeta| && forall k :: 0 <= k < |r| ==> r[k] == ZetaList(s, k, x)[..stop]
    {
      hide ZetaAt;
      r := zeta;
      for k := 0 to |s.powers|
        invariant |r| == |zeta|
        invariant forall j :: 0 <= j < k ==> r[j] == ZetaList(s, j, x)[..stop]
        invariant forall j :: k <= j < |r| ==> r[j] == zeta[j]
      {
        var values := zeta[k] + seq(stop - from, i requires 0 <= i < stop - from => ZetaAt(s, k, x, from + i));
        assert values == ZetaList(s, k, x)[..stop];
        r := r[k := values];
      }
    }

    /** Appends what generation produced, scoring it in chunks of 32 tokens. */
    method Extend(record: Record, generated: seq<Token>) returns (r: Record)
      requires Faithful(s, record)
      modifies this
      ensures Done(s, record.tokens) ==> r == record && generatedTokens == old(generatedTokens)
      ensures !Done(s, record.tokens) ==>
        r == Score(s, record.tokens + generated) && generatedTokens == old(generatedTokens) + |generated|
    {
      hide LogpAt, ZetaAt;
      if Done(s, record.tokens) {
        return record;
      }
      generatedTokens := generatedTokens + |generated|;
      var x, n := record.tokens + generated, |record.tokens|;
      var logp, zeta := record.logp, record.zeta;
      ListsOfPrefix(s, x, n);
      assert x[..n] == record.tokens;
      var start := 0;
      while start < |generated|
        invariant 0 <= start && generatedTokens == old(generatedTokens) + |generated|
        invariant |zeta| == |s.powers|
        invariant var m := if start < |generated| then n + start else |x|;
          logp == LogpList(s, x)[..m] && forall k :: 0 <= k < |zeta| ==> zeta[k] == ZetaList(s, k, x)[..m]
      {
        var from := n + start;
        var stop := if start + 32 < |generated| then from + 32 else |x|;
        logp := logp + seq(stop - from, i requires 0 <= i < stop - from => LogpAt(s, x, from + i));
        assert logp == LogpList(s, x)[..stop];
        zeta := AppendZeta(zeta, x, from, stop);
        start := start + 32;
      }
      forall k | 0 <= k < |zeta|
        ensures zeta[k] == Score(s, x).zeta[k]
      {
        assert ZetaList(s, k, x)[..|x|] == ZetaList(s, k, x);
      }
      assert LogpList(s, x)[..|x|] == LogpList(s, x);
      assert zeta == Score(s, x).zeta;
      r := Record(x, logp, zeta);
    }

    /** One try of chain k. */
    method TryMove(chains: seq<Record>, i: nat, k: nat, d: Draws, ghost run: Run)
      returns (after: seq<Record>, attempted: nat, accepted: nat)
      requires ValidSetting(s) && ValidDraws(s, d)
      requires k < |s.powers| && ValidLadder(s, run.chains) && Holds(s, chains, run.chains)
      modifies this
      ensures var next := MoveChain(s, d, i, k, run);
        Holds(s, after, next.chains) && attempted == next.attempted - run.attempted
        && accepted == next.accepted - run.accepted
        && generatedTokens == old(generatedTokens) + next.generated - run.generated
    {
      var current, restart := chains[k], d.restart(i, k);
      if restart >= |current.tokens| {
        return chains, 0, 0;
      }
      CandidateComplete(s, d, i, k, current.tokens);
      PrefixFaithful(s, current, restart);
      var prefix := current.Prefix(restart);
      var candidate := Extend(prefix, d.suffix(i, k, prefix.tokens));
      assert candidate.tokens == Candidate(d, i, k, current.tokens);
      attempted := 1;
      var logRatio := Total(candidate.zeta[k][restart..]) - Total(current.zeta[k][restart..]);
      AcceptanceTest(s, d.moveDraw(i, k), logRatio);
      if Accepts(s, d.moveDraw(i, k), logRatio) {
        after := chains[k := candidate];
        accepted := 1;
      } else {
        after := chains;
        accepted := 0;
      }
    }

    /** One swap attempt between chains k and k + 1. */
    method TrySwap(chains: seq<Record>, i: nat, k: nat, d: Draws, ghost run: Run)
      returns (after: seq<Record>, swaps: nat)
      requires ValidSetting(s) && ValidDraws(s, d)
      requires k + 1 < |s.powers| && ValidLadder(s, run.chains) && Holds(s, chains, run.chains)
      ensures var next := SwapPair(s, d, i, k, run);
        Holds(s, after, next.chains) && swaps == next.swaps - run.swaps
    {
      var low, high := chains[k], chains[k + 1];
      var logRatio := (s.powers[k + 1] - s.powers[k]) * (Total(low.logp) - Total(high.logp));
      assert logRatio == SwapLogRatio(s, run.chains, k);
      AcceptanceTest(s, d.swapDraw(i, k), logRatio);
      if Accepts(s, d.swapDraw(i, k), logRatio) {
        after := chains[k := high][k + 1 := low];
        swaps := 1;
      } else {
        after := chains;
        swaps := 0;
      }
    }

    method StartChains(d: Draws) returns (chains: seq<Record>)
      requires ValidSetting(s) && ValidDraws(s, d)
      modifies this
      ensures Holds(s, chains, Start(s, d).chains) && generatedTokens == Start(s, d).generated
    {
      hide Score, Complete, Done;
      generatedTokens := 0;
      chains := [];
      while |chains| < |s.powers|
        invariant |chains| <= |s.powers|
        invariant forall k :: 0 <= k < |chains| ==> chains[k] == Score(s, d.start(k))
        invariant generatedTokens == GeneratedAtStart(d, |chains|)
      {
        EmptyOpen(s);
        var empty := Empty();
        assert [] + d.start(|chains|) == d.start(|chains|);
        var record := Extend(empty, d.start(|chains|));
        chains := chains + [record];
      }
    }

    method MoveRound(before: seq<Record>, i: nat, d: Draws, ghost run: Run)
      returns (chains: seq<Record>, attempted: nat, accepted: nat)
      requires ValidSetting(s) && ValidDraws(s, d)
      requires ValidLadder(s, run.chains) && Holds(s, before, run.chains)
      modifies this
      ensures var next := MoveChains(s, d, i, |s.powers|, run);
        Holds(s, chains, next.chains) && attempted == next.attempted - run.attempted
        && accepted == next.accepted - run.accepted
        && generatedTokens == old(generatedTokens) + next.generated - run.generated
    {
      hide MoveChain;
      chains, attempted, accepted := before, 0, 0;
      for k := 0 to |s.powers|
        invariant var next := MoveChains(s, d, i, k, run);
          Holds(s, chains, next.chains) && attempted == next.attempted - run.attempted
          && accepted == next.accepted - run.accepted
          && generatedTokens == old(generatedTokens) + next.generated - run.generated
      {
        MoveChainsValid(s, d, i, k, run);
        var a, b;
        chains, a, b := TryMove(chains, i, k, d, MoveChains(s, d, i, k, run));
        attempted, accepted := attempted + a, accepted + b;
      }
    }

    method SwapRound(before: seq<Record>, i: nat, d: Draws, ghost run: Run)
      returns (chains: seq<Record>, swaps: nat)
      requires ValidSetting(s) && ValidDraws(s, d)
      requires ValidLadder(s, run.chains) && Holds(s, before, run.chains)
      ensures var next := SwapPairs(s, d, i, |s.powers| - 1, run);
        Holds(s, chains, next.chains) && swaps == next.swaps - run.swaps
    {
      hide SwapPair;
      chains, swaps := before, 0;
      for k := 0 to |s.powers| - 1
        invariant var next := SwapPairs(s, d, i, k, run);
          Holds(s, chains, next.chains) && swaps == next.swaps - run.swaps
      {
        SwapPairsValid(s, d, i, k, run);
        var c;
        chains, c := TrySwap(chains, i, k, d, SwapPairs(s, d, i, k, run));
        swaps := swaps + c;
      }
    }

    /** The whole run follows the run without caches: the same sequences, the same counters,
        and every record of every chain scored as if from scratch. */
    method Ppt(rounds: nat, d: Draws)
      returns (chains: seq<Record>, result: Record, attempted: nat, accepted: nat, swaps: nat)
      requires ValidSetting(s) && ValidDraws(s, d)
      modifies this
      ensures Holds(s, chains, Rounds(s, d, rounds).chains)
      ensures result == Score(s, Rounds(s, d, rounds).chains[|s.powers| - 1])
      ensures Rounds(s, d, rounds) == Run(Rounds(s, d, rounds).chains, attempted, accepted, swaps, generatedTokens)
    {
      hide MoveChains, SwapPairs, Start;
      StartValid(s, d);
      chains := StartChains(d);
      attempted, accepted, swaps := 0, 0, 0;
      for i := 0 to rounds
        invariant Holds(s, chains, Rounds(s, d, i).chains)
        invariant Rounds(s, d, i) == Run(Rounds(s, d, i).chains, attempted, accepted, swaps, generatedTokens)
      {
        ghost var before := Rounds(s, d, i);
        RoundsValid(s, d, i);
        ghost var moved := MoveChains(s, d, i, |s.powers|, before);
        MoveChainsValid(s, d, i, |s.powers|, before);
        SwapPairsValid(s, d, i, |s.powers| - 1, moved);
        var a, b, c;
        chains, a, b := MoveRound(chains, i, d, before);
        attempted, accepted := attempted + a, accepted + b;
        chains, c := SwapRound(chains, i, d, moved);
        swaps := swaps + c;
      }
      result := chains[|chains| - 1];
    }
  }
}
