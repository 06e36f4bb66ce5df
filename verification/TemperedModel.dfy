/** The base language model, the tempered targets built from it, and the token sequences
    that the power sampler moves between. */
module TemperedModel {

  type Token = int

  /** What one call of the sampler works with: the next-token log-probabilities of the base
      model, the vocabulary 0..vocab-1, the stop tokens, the horizon and the ladder of powers.
      `exp` and `log` stand for the real functions; `Analytic` lists the facts used of them. */
  datatype Setting = Setting(
    prompt: seq<Token>,
    logp: (seq<Token>, Token) -> real,
    vocab: nat,
    eos: set<Token>,
    horizon: nat,
    powers: seq<real>,
    exp: real -> real,
    log: real -> real)

  ghost predicate ExpAdds(s: Setting, x: real, y: real) {
    s.exp(x + y) == s.exp(x) * s.exp(y)
  }

  ghost predicate ExpGrows(s: Setting, x: real, y: real) {
    x < y ==> s.exp(x) < s.exp(y)
  }

  ghost predicate Analytic(s: Setting) {
    && (forall x: real :: s.exp(x) > 0.0)
    && (forall x: real, y: real :: ExpAdds(s, x, y))
    && (forall x: real, y: real :: ExpGrows(s, x, y))
    && (forall x: real :: x > 0.0 ==> s.exp(s.log(x)) == x)
  }

  ghost predicate ValidSetting(s: Setting) {
    Analytic(s) && s.vocab > 0 && s.horizon > 0 && |s.powers| > 0
  }

  // ----- token sequences -----

  /** Tokens of the vocabulary, at most `horizon` of them, a stop token only in last place. */
  ghost predicate Live(s: Setting, x: seq<Token>) {
    && |x| <= s.horizon
    && (forall i :: 0 <= i < |x| ==> 0 <= x[i] < s.vocab)
    && (forall i :: 0 <= i < |x| - 1 ==> x[i] !in s.eos)
  }

  /** The guard under which `extend` returns its record unchanged. */
  predicate Done(s: Setting, x: seq<Token>) {
    |x| >= s.horizon || (|x| > 0 && x[|x| - 1] in s.eos)
  }

  /** The support of the targets: generation stopped at a stop token or at the horizon. */
  ghost predicate Complete(s: Setting, x: seq<Token>) {
    Live(s, x) && Done(s, x)
  }

  /** Completed sequences are prefix-free. */
  lemma CompletePrefixFree(s: Setting, x: seq<Token>, y: seq<Token>)
    requires ValidSetting(s) && Complete(s, x) && Complete(s, y) && x <= y
    ensures x == y
  {
    assert |x| == |y|;
  }

  lemma PrefixOpen(s: Setting, x: seq<Token>, r: nat)
    requires Live(s, x) && r < |x|
    ensures Live(s, x[..r]) && !Done(s, x[..r])
  {
  }

  // ----- sums -----

  function Total(xs: seq<real>): real {
    if xs == [] then 0.0 else xs[0] + Total(xs[1..])
  }

  lemma {:induction false} SumSplit(xs: seq<real>, r: nat)
    requires r <= |xs|
    ensures Total(xs) == Total(xs[..r]) + Total(xs[r..])
  {
    if r == 0 {
      assert xs[r..] == xs;
    } else {
      SumSplit(xs[1..], r - 1);
      assert xs[..r][1..] == xs[1..][..r - 1];
      assert xs[1..][r - 1..] == xs[r..];
    }
  }

  // ----- what a record caches -----

  function LogpAt(s: Setting, x: seq<Token>, i: nat): real
    requires i < |x|
  {
    s.logp(s.prompt + x[..i], x[i])
  }

  /** A log-probability tempered by power k. */
  function Tempered(s: Setting, k: nat, x: real): real
    requires k < |s.powers|
  {
    s.powers[k] * x
  }

  lemma TemperedAdds(s: Setting, k: nat, c: real, a: real, b: real)
    requires k < |s.powers| && c == a + b
    ensures Tempered(s, k, c) == Tempered(s, k, a) + Tempered(s, k, b)
  {
  }

  /** The unnormalised next-token weight p(t | context)^alpha_k. */
  function Weight(s: Setting, k: nat, context: seq<Token>, t: Token): real
    requires k < |s.powers|
  {
    s.exp(Tempered(s, k, s.logp(context, t)))
  }

  /** The weights of the first n tokens. */
  function WeightSum(s: Setting, k: nat, context: seq<Token>, n: nat): real
    requires k < |s.powers|
  {
    if n == 0 then 0.0
    else WeightSum(s, k, context, n - 1) + Weight(s, k, context, n - 1)
  }

  function Normaliser(s: Setting, k: nat, context: seq<Token>): real
    requires k < |s.powers|
  {
    WeightSum(s, k, context, s.vocab)
  }

  /** The log-normaliser of power k after `x[..i]`. */
  function ZetaAt(s: Setting, k: nat, x: seq<Token>, i: nat): real
    requires k < |s.powers| && i <= |x|
  {
    s.log(Normaliser(s, k, s.prompt + x[..i]))
  }

  function LogpList(s: Setting, x: seq<Token>): (l: seq<real>)
    ensures |l| == |x|
  {
    seq(|x|, i requires 0 <= i < |x| => LogpAt(s, x, i))
  }

  function ZetaList(s: Setting, k: nat, x: seq<Token>): (l: seq<real>)
    requires k < |s.powers|
    ensures |l| == |x|
  {
    seq(|x|, i requires 0 <= i < |x| => ZetaAt(s, k, x, i))
  }

  /** A prefix keeps the values it was scored with. */
  lemma ListsOfPrefix(s: Setting, x: seq<Token>, r: nat)
    requires r <= |x|
    ensures LogpList(s, x)[..r] == LogpList(s, x[..r])
    ensures forall k :: 0 <= k < |s.powers| ==> ZetaList(s, k, x)[..r] == ZetaList(s, k, x[..r])
  {
    assert forall i :: 0 <= i < r ==> x[..r][..i] == x[..i];
  }

  // ----- the targets -----

  function LogpSum(s: Setting, x: seq<Token>): real {
    Total(LogpList(s, x))
  }

  /** The unnormalised target of power k: the base probability of x to the power alpha_k. */
  function Target(s: Setting, k: nat, x: seq<Token>): real
    requires k < |s.powers|
  {
    s.exp(Tempered(s, k, LogpSum(s, x)))
  }

  // ----- facts about exp and log -----

  function MinOne(a: real): real {
    if a < 1.0 then a else 1.0
  }

  lemma ExpSum(s: Setting, x: real, y: real)
    requires Analytic(s)
    ensures s.exp(x + y) == s.exp(x) * s.exp(y)
  {
    assert ExpAdds(s, x, y);
  }

  lemma ExpZero(s: Setting)
    requires Analytic(s)
    ensures s.exp(0.0) == 1.0
  {
    ExpSum(s, 0.0, 0.0);
    assert s.exp(0.0) * (s.exp(0.0) - 1.0) == 0.0;
    assert s.exp(0.0) > 0.0;
  }

  lemma ExpStrict(s: Setting, x: real, y: real)
    requires Analytic(s)
    ensures x < y <==> s.exp(x) < s.exp(y)
  {
    assert ExpGrows(s, x, y) && ExpGrows(s, y, x);
  }

  lemma {:induction false} WeightSumPositive(s: Setting, k: nat, context: seq<Token>, n: nat)
    requires Analytic(s) && k < |s.powers| && n > 0
    ensures WeightSum(s, k, context, n) > 0.0
  {
    if n > 1 {
      WeightSumPositive(s, k, context, n - 1);
    }
  }

  /** The acceptance test of the code, `log(u) < min(0, ratio)`, holds for exactly the
      uniform draws below min(1, exp(ratio)). */
  lemma AcceptanceTest(s: Setting, u: real, ratio: real)
    requires Analytic(s) && 0.0 < u < 1.0
    ensures s.log(u) < (if ratio < 0.0 then ratio else 0.0) <==> u < MinOne(s.exp(ratio))
  {
    ExpZero(s);
    ExpStrict(s, s.log(u), ratio);
    ExpStrict(s, s.log(u), 0.0);
    ExpStrict(s, ratio, 0.0);
  }
}
