/** The restart move of one chain: regenerate everything after a random position, and accept
    by the ratio of cached normalisers. */
module MetropolisMove {
  import opened TemperedModel
  import opened TreeSums
  import opened Generation
  import opened Kernels

  /** The log-ratio the code computes from the two records' lists for power k. */
  function MoveLogRatio(s: Setting, k: nat, r: nat, x: seq<Token>, y: seq<Token>): real
    requires k < |s.powers| && r <= |x| && r <= |y|
  {
    Total(ZetaList(s, k, y)[r..]) - Total(ZetaList(s, k, x)[r..])
  }

  /** A restart at or past the end of x proposes x itself. */
  ghost function Propose(s: Setting, k: nat, r: nat): Kernel
    requires ValidSetting(s) && k < |s.powers|
  {
    (x: seq<Token>, y: seq<Token>) =>
      if r < |x| then GenProb(TemperedToken(s, k), x[..r], y) else if x == y then 1.0 else 0.0
  }

  ghost function Accept(s: Setting, k: nat, r: nat): Kernel
    requires k < |s.powers|
  {
    (x: seq<Token>, y: seq<Token>) =>
      if r < |x| && r <= |y| then MinOne(s.exp(MoveLogRatio(s, k, r, x, y))) else 1.0
  }

  ghost function RestartAt(s: Setting, k: nat): nat -> Kernel
    requires ValidSetting(s) && k < |s.powers|
  {
    (r: nat) => Metropolis(s, Propose(s, k, r), Accept(s, k, r))
  }

  /** One move of chain k: restart at a position drawn uniformly from 0..horizon-1. */
  ghost function Move(s: Setting, k: nat): Kernel
    requires ValidSetting(s) && k < |s.powers|
  {
    Mixture(RestartAt(s, k), s.horizon)
  }

  ghost function TargetOf(s: Setting, k: nat): Measure
    requires k < |s.powers|
  {
    x => Target(s, k, x)
  }

  // ----- detailed balance -----

  /** With `head` the log-probability of the common prefix, target, proposal and acceptance
      multiply to a form that is symmetric in x and y. `ax` and `ay` are the tempered
      log-probabilities of the two suffixes, `zx` and `zy` their log-normalisers. */
  lemma OneWay(s: Setting, head: real, ax: real, ay: real, zx: real, zy: real, t: real, g: real, m: real)
    requires Analytic(s)
    requires t == s.exp(head + ax) && g == s.exp(ay - zy) && m == MinOne(s.exp(zy - zx))
    ensures t * (g * m) == s.exp(head + ax + ay) * (if s.exp(-zx) < s.exp(-zy) then s.exp(-zx) else s.exp(-zy))
  {
    var e, dx, dy := s.exp(head + ax + ay), s.exp(-zx), s.exp(-zy);
    assert t * g == e * dy by {
      ExpSum(s, head + ax, ay - zy);
      ExpSum(s, head + ax + ay, -zy);
      assert head + ax + (ay - zy) == head + ax + ay + -zy;
    }
    assert dy * m == (if dx < dy then dx else dy) by {
      ExpSum(s, -zy, zy - zx);
      assert -zy + (zy - zx) == -zx;
      ExpZero(s);
      ExpStrict(s, zy - zx, 0.0);
      ExpStrict(s, -zx, -zy);
    }
    Regroup(t, g, m, e, dy);
  }

  lemma Regroup(t: real, g: real, m: real, e: real, d: real)
    requires t * g == e * d
    ensures t * (g * m) == e * (d * m)
  {
    assert t * (g * m) == (t * g) * m;
    assert e * (d * m) == (e * d) * m;
  }

  /** The tempered log-probability of x splits at its restart position. */
  lemma TargetSplits(s: Setting, k: nat, r: nat, x: seq<Token>)
    requires k < |s.powers| && r <= |x|
    ensures Target(s, k, x)
         == s.exp(Tempered(s, k, Total(LogpList(s, x[..r]))) + Tempered(s, k, Total(LogpList(s, x)[r..])))
  {
    SumSplit(LogpList(s, x), r);
    ListsOfPrefix(s, x, r);
    TemperedAdds(s, k, LogpSum(s, x), Total(LogpList(s, x[..r])), Total(LogpList(s, x)[r..]));
  }

  /** The tempered log-probability, and the log-normaliser, of what x adds after position r. */
  ghost function SuffixLogp(s: Setting, k: nat, r: nat, x: seq<Token>): real
    requires k < |s.powers| && r <= |x|
  {
    Tempered(s, k, Total(LogpList(s, x)[r..]))
  }

  ghost function SuffixZeta(s: Setting, k: nat, r: nat, x: seq<Token>): real
    requires k < |s.powers| && r <= |x|
  {
    Total(ZetaList(s, k, x)[r..])
  }

  lemma ProposeValue(s: Setting, k: nat, r: nat, x: seq<Token>, y: seq<Token>)
    requires ValidSetting(s) && k < |s.powers|
    requires r < |x| && r < |y| && x[..r] == y[..r]
    ensures Propose(s, k, r)(x, y) == s.exp(SuffixLogp(s, k, r, y) - SuffixZeta(s, k, r, y))
  {
    GenProbFromCaches(s, k, x[..r], y);
  }

  lemma AcceptedValue(s: Setting, k: nat, r: nat, x: seq<Token>, y: seq<Token>)
    requires ValidSetting(s) && k < |s.powers|
    requires r < |x| && r < |y| && x[..r] == y[..r]
    ensures Target(s, k, x) * Accepted(Propose(s, k, r), Accept(s, k, r), x)(y)
         == s.exp(Tempered(s, k, Total(LogpList(s, x[..r]))) + SuffixLogp(s, k, r, x) + SuffixLogp(s, k, r, y))
            * (if s.exp(-SuffixZeta(s, k, r, x)) < s.exp(-SuffixZeta(s, k, r, y))
               then s.exp(-SuffixZeta(s, k, r, x)) else s.exp(-SuffixZeta(s, k, r, y)))
  {
    TargetSplits(s, k, r, x);
    ProposeValue(s, k, r, x, y);
    OneWay(s, Tempered(s, k, Total(LogpList(s, x[..r]))), SuffixLogp(s, k, r, x), SuffixLogp(s, k, r, y),
           SuffixZeta(s, k, r, x), SuffixZeta(s, k, r, y),
           Target(s, k, x), Propose(s, k, r)(x, y), Accept(s, k, r)(x, y));
  }

  lemma AcceptedBothWays(s: Setting, k: nat, r: nat, x: seq<Token>, y: seq<Token>)
    requires ValidSetting(s) && k < |s.powers|
    requires r < |x| && r < |y| && x[..r] == y[..r]
    ensures Target(s, k, x) * Accepted(Propose(s, k, r), Accept(s, k, r), x)(y)
         == Target(s, k, y) * Accepted(Propose(s, k, r), Accept(s, k, r), y)(x)
  {
    AcceptedValue(s, k, r, x, y);
    AcceptedValue(s, k, r, y, x);
    var head := Tempered(s, k, Total(LogpList(s, x[..r])));
    assert head + SuffixLogp(s, k, r, x) + SuffixLogp(s, k, r, y)
        == head + SuffixLogp(s, k, r, y) + SuffixLogp(s, k, r, x);
  }

  /** Detailed balance of the move with a given restart position, for the base model's
      distribution raised to the power alpha_k. */
  lemma RestartReversible(s: Setting, k: nat, r: nat)
    requires ValidSetting(s) && k < |s.powers|
    ensures Reversible(s, TargetOf(s, k), RestartAt(s, k)(r))
  {
    hide Accepted, Accept, Propose, Target;
    var target, propose, accept := TargetOf(s, k), Propose(s, k, r), Accept(s, k, r);
    forall x, y | Complete(s, x) && Complete(s, y)
      ensures target(x) * Accepted(propose, accept, x)(y) == target(y) * Accepted(propose, accept, y)(x)
    {
      if x != y {
        if r < |x| && r < |y| && x[..r] == y[..r] {
          AcceptedBothWays(s, k, r, x, y);
        } else {
          NothingProposed(s, k, r, x, y);
          NothingProposed(s, k, r, y, x);
        }
      }
    }
    MetropolisReversible(s, target, propose, accept);
  }

  lemma NothingProposed(s: Setting, k: nat, r: nat, x: seq<Token>, y: seq<Token>)
    requires ValidSetting(s) && k < |s.powers| && Complete(s, x) && Complete(s, y) && x != y
    requires !(r < |x| && r < |y| && x[..r] == y[..r])
    ensures Accepted(Propose(s, k, r), Accept(s, k, r), x)(y) == 0.0
  {
    if r < |x| && x[..r] <= y {
      PrefixOpen(s, x, r);
      assert false;
    }
  }

  // ----- unit rows -----

  lemma GenProbNonNegative(s: Setting, k: nat, p: seq<Token>, y: seq<Token>)
    requires ValidSetting(s) && k < |s.powers|
    ensures GenProb(TemperedToken(s, k), p, y) >= 0.0
  {
    if p <= y {
      GenProbFromCaches(s, k, p, y);
    }
  }

  /** From every completed sequence the proposal is a probability distribution. */
  lemma ProposeDistribution(s: Setting, k: nat, r: nat, x: seq<Token>)
    requires ValidSetting(s) && k < |s.powers| && Complete(s, x)
    ensures Distribution(s, Row(Propose(s, k, r), x))
  {
    var row := Row(Propose(s, k, r), x);
    if r >= |x| {
      TreePoint(s, x, row);
    } else {
      var p := x[..r];
      PrefixOpen(s, x, r);
      forall y | Complete(s, y)
        ensures row(y) >= 0.0
      {
        GenProbNonNegative(s, k, p, y);
      }
      TreeLocal(s, [], p, row);
      TreeEqual(s, p, GenFrom(TemperedToken(s, k), p), row);
      TemperedGenerationTotal(s, k, p);
    }
  }

  lemma RestartStochastic(s: Setting, k: nat, r: nat, x: seq<Token>)
    requires ValidSetting(s) && k < |s.powers| && Complete(s, x)
    ensures Distribution(s, Row(RestartAt(s, k)(r), x))
  {
    ProposeDistribution(s, k, r, x);
    forall y | Complete(s, y)
      ensures Fraction(Accept(s, k, r)(x, y))
    {
    }
    MetropolisStochastic(s, Propose(s, k, r), Accept(s, k, r), x);
  }

  // ----- the move -----

  /** Detailed balance of the whole move, restart position included. */
  lemma MoveReversible(s: Setting, k: nat)
    requires ValidSetting(s) && k < |s.powers|
    ensures Reversible(s, TargetOf(s, k), Move(s, k))
  {
    forall r: nat | r < s.horizon
      ensures Reversible(s, TargetOf(s, k), RestartAt(s, k)(r))
    {
      RestartReversible(s, k, r);
    }
    MixtureReversible(s, TargetOf(s, k), RestartAt(s, k), s.horizon);
  }

  /** The move is a probability distribution from every completed sequence. */
  lemma MoveStochastic(s: Setting, k: nat)
    requires ValidSetting(s) && k < |s.powers|
    ensures Stochastic(s, Move(s, k))
  {
    forall x | Complete(s, x)
      ensures Distribution(s, Row(Move(s, k), x))
    {
      forall r: nat | r < s.horizon
        ensures Distribution(s, Row(RestartAt(s, k)(r), x))
      {
        RestartStochastic(s, k, r, x);
      }
      MixtureStochastic(s, RestartAt(s, k), s.horizon, x);
    }
  }

  /** Global balance: one move of chain k leaves its tempered target unchanged. */
  lemma MoveInvariant(s: Setting, k: nat, y: seq<Token>)
    requires ValidSetting(s) && k < |s.powers| && Complete(s, y)
    ensures TreeSum(s, [], Inflow(TargetOf(s, k), Move(s, k), y)) == Target(s, k, y)
  {
    MoveReversible(s, k);
    MoveStochastic(s, k);
    ReversibleInvariant(s, TargetOf(s, k), Move(s, k), y);
  }
}
