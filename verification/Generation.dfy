/** Autoregressive generation, and its probabilities in terms of the values a record caches. */
module Generation {
  import opened TemperedModel
  import opened TreeSums

  type TokenLaw = (seq<Token>, Token) -> real

  ghost function TokenTotal(w: TokenLaw, p: seq<Token>, n: nat): real {
    if n == 0 then 0.0 else TokenTotal(w, p, n - 1) + w(p, n - 1)
  }

  /** The probability that drawing tokens from `w` after `p` ends in `y`. */
  ghost function GenProb(w: TokenLaw, p: seq<Token>, y: seq<Token>): real
    decreases |y| - |p|
  {
    if p == y then 1.0
    else if p <= y then w(p, y[|p|]) * GenProb(w, p + [y[|p|]], y)
    else 0.0
  }

  ghost function GenFrom(w: TokenLaw, p: seq<Token>): seq<Token> -> real {
    y => GenProb(w, p, y)
  }

  lemma {:induction false} BranchTotal(s: Setting, w: TokenLaw, p: seq<Token>, n: nat, f: seq<Token> -> real)
    requires Live(s, p) && !Done(s, p) && n <= s.vocab
    requires forall t :: 0 <= t < n ==> TreeSum(s, p + [t], f) == w(p, t)
    ensures BranchSum(s, p, n, f) == TokenTotal(w, p, n)
  {
    if n > 0 {
      BranchTotal(s, w, p, n - 1, f);
      assert TreeSum(s, p + [n - 1], f) == w(p, n - 1);
    }
  }

  /** If the token probabilities sum to one after every unfinished prefix, generation ends in
      exactly one completed sequence with probability one. */
  lemma {:induction false} GenerationTotal(s: Setting, w: TokenLaw, p: seq<Token>)
    requires Live(s, p)
    requires forall q :: Live(s, q) && !Done(s, q) ==> TokenTotal(w, q, s.vocab) == 1.0
    ensures TreeSum(s, p, GenFrom(w, p)) == 1.0
    decreases s.horizon - |p|
  {
    if !Done(s, p) {
      var f := GenFrom(w, p);
      forall t | 0 <= t < s.vocab
        ensures TreeSum(s, p + [t], f) == w(p, t)
      {
        GenerationTotal(s, w, p + [t]);
        FirstToken(s, w, p, t);
      }
      BranchTotal(s, w, p, s.vocab, f);
    }
  }

  lemma FirstToken(s: Setting, w: TokenLaw, p: seq<Token>, t: Token)
    requires Live(s, p) && !Done(s, p) && 0 <= t < s.vocab
    ensures TreeSum(s, p + [t], GenFrom(w, p)) == w(p, t) * TreeSum(s, p + [t], GenFrom(w, p + [t]))
  {
    var f, g := GenFrom(w, p), GenFrom(w, p + [t]);
    forall y | Complete(s, y) && p + [t] <= y
      ensures f(y) == w(p, t) * g(y) + 0.0 * g(y)
    {
      assert y[|p|] == t;
    }
    TreeLinear(s, p + [t], g, g, f, w(p, t), 0.0);
  }

  // ----- sampling at temperature 1 / alpha_k -----

  ghost function TemperedToken(s: Setting, k: nat): TokenLaw
    requires ValidSetting(s) && k < |s.powers|
  {
    (p: seq<Token>, t: Token) => Softmax(s, k, p, t)
  }

  ghost function Softmax(s: Setting, k: nat, p: seq<Token>, t: Token): real
    requires ValidSetting(s) && k < |s.powers|
  {
    WeightSumPositive(s, k, s.prompt + p, s.vocab);
    Weight(s, k, s.prompt + p, t) / Normaliser(s, k, s.prompt + p)
  }

  lemma {:induction false} SoftmaxPartial(s: Setting, k: nat, p: seq<Token>, n: nat)
    requires ValidSetting(s) && k < |s.powers|
    ensures Normaliser(s, k, s.prompt + p) > 0.0
    ensures TokenTotal(TemperedToken(s, k), p, n) == WeightSum(s, k, s.prompt + p, n) / Normaliser(s, k, s.prompt + p)
  {
    WeightSumPositive(s, k, s.prompt + p, s.vocab);
    var z := Normaliser(s, k, s.prompt + p);
    if n > 0 {
      SoftmaxPartial(s, k, p, n - 1);
      AddQuotients(WeightSum(s, k, s.prompt + p, n - 1), Weight(s, k, s.prompt + p, n - 1),
                   WeightSum(s, k, s.prompt + p, n), z);
    }
  }

  lemma AddQuotients(a: real, b: real, c: real, z: real)
    requires z > 0.0 && c == a + b
    ensures a / z + b / z == c / z
  {
  }

  /** Sampling at power k from any unfinished prefix is a probability distribution. */
  lemma TemperedGenerationTotal(s: Setting, k: nat, p: seq<Token>)
    requires ValidSetting(s) && k < |s.powers| && Live(s, p)
    ensures TreeSum(s, p, GenFrom(TemperedToken(s, k), p)) == 1.0
  {
    forall q | Live(s, q) && !Done(s, q)
      ensures TokenTotal(TemperedToken(s, k), q, s.vocab) == 1.0
    {
      SoftmaxPartial(s, k, q, s.vocab);
      Quotient(1.0, WeightSum(s, k, s.prompt + q, s.vocab), Normaliser(s, k, s.prompt + q),
               WeightSum(s, k, s.prompt + q, s.vocab));
    }
    GenerationTotal(s, TemperedToken(s, k), p);
  }

  /** The generation probability in terms of the two lists that a record caches. */
  lemma {:induction false} GenProbFromCaches(s: Setting, k: nat, p: seq<Token>, y: seq<Token>)
    requires ValidSetting(s) && k < |s.powers| && p <= y
    ensures GenProb(TemperedToken(s, k), p, y) == FromCaches(s, k, LogpList(s, y)[|p|..], ZetaList(s, k, y)[|p|..])
    decreases |y| - |p|
  {
    hide FromCaches, Softmax, Normaliser;
    var l, z := LogpList(s, y)[|p|..], ZetaList(s, k, y)[|p|..];
    if p == y {
      NothingCached(s, k);
      assert l == [] && z == [];
    } else {
      assert p == y[..|p|];
      var q := p + [y[|p|]];
      GenProbFromCaches(s, k, q, y);
      assert l[1..] == LogpList(s, y)[|q|..] && z[1..] == ZetaList(s, k, y)[|q|..];
      WeightSumPositive(s, k, s.prompt + p, s.vocab);
      OneMoreToken(s, k, p, l, z, y[|p|]);
      GenProbStep(TemperedToken(s, k), p, y);
    }
  }

  lemma NothingCached(s: Setting, k: nat)
    requires Analytic(s) && k < |s.powers|
    ensures FromCaches(s, k, [], []) == 1.0
  {
    ExpZero(s);
  }

  lemma GenProbStep(w: TokenLaw, p: seq<Token>, y: seq<Token>)
    requires p <= y && p != y
    ensures GenProb(w, p, y) == w(p, y[|p|]) * GenProb(w, p + [y[|p|]], y)
  {
  }

  ghost function FromCaches(s: Setting, k: nat, l: seq<real>, z: seq<real>): real
    requires k < |s.powers|
  {
    s.exp(Tempered(s, k, Total(l)) - Total(z))
  }

  lemma OneMoreToken(s: Setting, k: nat, p: seq<Token>, l: seq<real>, z: seq<real>, t: Token)
    requires ValidSetting(s) && k < |s.powers| && |l| > 0 && |z| > 0
    requires l[0] == s.logp(s.prompt + p, t) && z[0] == s.log(Normaliser(s, k, s.prompt + p))
    ensures Softmax(s, k, p, t) * FromCaches(s, k, l[1..], z[1..]) == FromCaches(s, k, l, z)
  {
    WeightSumPositive(s, k, s.prompt + p, s.vocab);
    var a, b, c := Tempered(s, k, l[0]), Tempered(s, k, Total(l[1..])), Tempered(s, k, Total(l));
    TemperedAdds(s, k, Total(l), l[0], Total(l[1..]));
    var first, rest := a - z[0], b - Total(z[1..]);
    ExpSum(s, first, z[0]);
    ExpSum(s, first, rest);
    assert first + z[0] == a && first + rest == c - Total(z);
    Quotient(s.exp(first), s.exp(z[0]), Normaliser(s, k, s.prompt + p), Weight(s, k, s.prompt + p, t));
    assert Softmax(s, k, p, t) == s.exp(first);
  }

  lemma Quotient(a: real, e: real, w: real, b: real)
    requires w > 0.0 && e == w && a * e == b
    ensures b / w == a
  {
  }
}
