/** Transition kernels on completed sequences: Metropolis-Hastings moves, uniform mixtures of
    moves, and what reversibility gives. */
module Kernels {
  import opened TemperedModel
  import opened TreeSums

  type Measure = seq<Token> -> real
  type Kernel = (seq<Token>, seq<Token>) -> real

  ghost function Row(move: Kernel, x: seq<Token>): Measure {
    y => move(x, y)
  }

  /** What flows into y in one move, started from `target`. */
  ghost function Inflow(target: Measure, move: Kernel, y: seq<Token>): Measure {
    x => target(x) * move(x, y)
  }

  /** Detailed balance between two sequences. */
  ghost predicate Balanced(target: Measure, move: Kernel, x: seq<Token>, y: seq<Token>) {
    target(x) * move(x, y) == target(y) * move(y, x)
  }

  ghost predicate Reversible(s: Setting, target: Measure, move: Kernel) {
    forall x, y :: Complete(s, x) && Complete(s, y) ==> Balanced(target, move, x, y)
  }

  /** Non-negative, and of total one. */
  ghost predicate Distribution(s: Setting, row: Measure) {
    && (forall y :: Complete(s, y) ==> row(y) >= 0.0)
    && TreeSum(s, [], row) == 1.0
  }

  ghost predicate Stochastic(s: Setting, move: Kernel) {
    forall x :: Complete(s, x) ==> Distribution(s, Row(move, x))
  }

  /** Detailed balance and unit rows make the target invariant. */
  lemma ReversibleInvariant(s: Setting, target: Measure, move: Kernel, y: seq<Token>)
    requires ValidSetting(s) && Complete(s, y)
    requires Reversible(s, target, move) && Stochastic(s, move)
    ensures TreeSum(s, [], Inflow(target, move, y)) == target(y)
  {
    var inflow, row := Inflow(target, move, y), Row(move, y);
    forall x | Complete(s, x)
      ensures inflow(x) == target(y) * row(x)
    {
      assert Balanced(target, move, x, y);
    }
    TreeScaled(s, [], row, inflow, target(y), 1.0);
    assert Distribution(s, row);
  }

  // ----- propose, then accept or stay -----

  ghost function Accepted(propose: Kernel, accept: Kernel, x: seq<Token>): Measure {
    y => propose(x, y) * accept(x, y)
  }

  ghost function Rejected(propose: Kernel, accept: Kernel, x: seq<Token>): Measure {
    y => propose(x, y) * (1.0 - accept(x, y))
  }

  /** Propose y with probability `propose(x, y)`, go there with probability `accept(x, y)`,
      and stay at x otherwise. */
  ghost function Metropolis(s: Setting, propose: Kernel, accept: Kernel): Kernel {
    (x: seq<Token>, y: seq<Token>) =>
      Accepted(propose, accept, x)(y)
      + if x == y then TreeSum(s, [], Rejected(propose, accept, x)) else 0.0
  }

  ghost predicate Fraction(a: real) {
    0.0 <= a <= 1.0
  }

  lemma FractionSplits(g: real, m: real)
    requires g >= 0.0 && Fraction(m)
    ensures g == g * m + g * (1.0 - m) && g * m >= 0.0 && g * (1.0 - m) >= 0.0
  {
  }

  lemma MetropolisStochastic(s: Setting, propose: Kernel, accept: Kernel, x: seq<Token>)
    requires ValidSetting(s) && Complete(s, x)
    requires Distribution(s, Row(propose, x))
    requires forall y :: Complete(s, y) ==> Fraction(accept(x, y))
    ensures Distribution(s, Row(Metropolis(s, propose, accept), x))
  {
    var yes, no, all := Accepted(propose, accept, x), Rejected(propose, accept, x), Row(propose, x);
    forall y | Complete(s, y)
      ensures all(y) == 1.0 * yes(y) + 1.0 * no(y) && yes(y) >= 0.0 && no(y) >= 0.0
    {
      assert all(y) >= 0.0 && Fraction(accept(x, y));
      FractionSplits(propose(x, y), accept(x, y));
    }
    TreeLinear(s, [], yes, no, all, 1.0, 1.0);
    TreeNonNegative(s, [], no);
    var stay := y => if y == x then TreeSum(s, [], no) else 0.0;
    TreePoint(s, x, stay);
    TreeLinear(s, [], yes, stay, Row(Metropolis(s, propose, accept), x), 1.0, 1.0);
  }

  lemma MetropolisReversible(s: Setting, target: Measure, propose: Kernel, accept: Kernel)
    requires forall x, y :: Complete(s, x) && Complete(s, y) ==>
      target(x) * Accepted(propose, accept, x)(y) == target(y) * Accepted(propose, accept, y)(x)
    ensures Reversible(s, target, Metropolis(s, propose, accept))
  {
  }

  // ----- a uniformly chosen move -----

  ghost function MoveSum(moves: nat -> Kernel, n: nat): Kernel {
    (x: seq<Token>, y: seq<Token>) => MoveSumAt(moves, n, x, y)
  }

  ghost function MoveSumAt(moves: nat -> Kernel, n: nat, x: seq<Token>, y: seq<Token>): real {
    if n == 0 then 0.0 else MoveSumAt(moves, n - 1, x, y) + moves(n - 1)(x, y)
  }

  ghost function Mixture(moves: nat -> Kernel, n: nat): Kernel
    requires n > 0
  {
    (x: seq<Token>, y: seq<Token>) => (1.0 / n as real) * MoveSumAt(moves, n, x, y)
  }

  lemma {:induction false} MoveSumReversible(s: Setting, target: Measure, moves: nat -> Kernel, n: nat,
      x: seq<Token>, y: seq<Token>)
    requires forall i: nat :: i < n ==> Balanced(target, moves(i), x, y)
    ensures target(x) * MoveSumAt(moves, n, x, y) == target(y) * MoveSumAt(moves, n, y, x)
  {
    if n > 0 {
      MoveSumReversible(s, target, moves, n - 1, x, y);
      assert Balanced(target, moves(n - 1), x, y);
    }
  }

  lemma MixtureReversible(s: Setting, target: Measure, moves: nat -> Kernel, n: nat)
    requires n > 0
    requires forall i: nat :: i < n ==> Reversible(s, target, moves(i))
    ensures Reversible(s, target, Mixture(moves, n))
  {
    forall x, y | Complete(s, x) && Complete(s, y)
      ensures Balanced(target, Mixture(moves, n), x, y)
    {
      MoveSumReversible(s, target, moves, n, x, y);
      Reassociate(target(x), 1.0 / n as real, MoveSumAt(moves, n, x, y));
      Reassociate(target(y), 1.0 / n as real, MoveSumAt(moves, n, y, x));
    }
  }

  lemma Reassociate(a: real, b: real, c: real)
    ensures a * (b * c) == b * (a * c)
  {
  }

  lemma {:induction false} MoveSumTotal(s: Setting, moves: nat -> Kernel, n: nat, x: seq<Token>)
    requires ValidSetting(s) && Complete(s, x)
    requires forall i: nat :: i < n ==> Distribution(s, Row(moves(i), x))
    ensures TreeSum(s, [], Row(MoveSum(moves, n), x)) == n as real
    ensures forall y :: Complete(s, y) ==> MoveSumAt(moves, n, x, y) >= 0.0
  {
    var sum := Row(MoveSum(moves, n), x);
    if n == 0 {
      TreeZero(s, [], sum);
    } else {
      MoveSumTotal(s, moves, n - 1, x);
      var before, last := Row(MoveSum(moves, n - 1), x), Row(moves(n - 1), x);
      assert Distribution(s, last);
      forall y | Complete(s, y)
        ensures sum(y) == 1.0 * before(y) + 1.0 * last(y) && sum(y) >= 0.0
      {
        assert last(y) >= 0.0;
      }
      TreeLinear(s, [], before, last, sum, 1.0, 1.0);
    }
  }

  lemma MixtureStochastic(s: Setting, moves: nat -> Kernel, n: nat, x: seq<Token>)
    requires ValidSetting(s) && Complete(s, x) && n > 0
    requires forall i: nat :: i < n ==> Distribution(s, Row(moves(i), x))
    ensures Distribution(s, Row(Mixture(moves, n), x))
  {
    MoveSumTotal(s, moves, n, x);
    var sum, mix := Row(MoveSum(moves, n), x), Row(Mixture(moves, n), x);
    var c := 1.0 / n as real;
    forall y | Complete(s, y)
      ensures mix(y) == c * sum(y) + 0.0 * sum(y) && mix(y) >= 0.0
    {
    }
    TreeLinear(s, [], sum, sum, mix, c, 0.0);
  }
}
