/** Finite sums over completed sequences, arranged as the tree of their prefixes. */
module TreeSums {
  import opened TemperedModel

  /** The sum of `f` over every completed sequence that extends `p`. */
  ghost function TreeSum(s: Setting, p: seq<Token>, f: seq<Token> -> real): real
    decreases s.horizon - |p|, s.vocab + 1
  {
    if Done(s, p) then f(p) else BranchSum(s, p, s.vocab, f)
  }

  ghost function BranchSum(s: Setting, p: seq<Token>, n: nat, f: seq<Token> -> real): real
    requires !Done(s, p)
    decreases s.horizon - |p|, n
  {
    if n == 0 then 0.0 else BranchSum(s, p, n - 1, f) + TreeSum(s, p + [n - 1], f)
  }

  /** A sum over completed extensions is linear, and sees only the completed extensions. */
  lemma {:induction false} TreeLinear(s: Setting, p: seq<Token>,
      f: seq<Token> -> real, g: seq<Token> -> real, h: seq<Token> -> real, a: real, b: real)
    requires Live(s, p)
    requires forall y :: Complete(s, y) && p <= y ==> h(y) == a * f(y) + b * g(y)
    ensures TreeSum(s, p, h) == a * TreeSum(s, p, f) + b * TreeSum(s, p, g)
    decreases s.horizon - |p|, s.vocab + 1
  {
    if Done(s, p) {
      assert h(p) == a * f(p) + b * g(p);
    } else {
      BranchLinear(s, p, s.vocab, f, g, h, a, b);
    }
  }

  lemma {:induction false} BranchLinear(s: Setting, p: seq<Token>, n: nat,
      f: seq<Token> -> real, g: seq<Token> -> real, h: seq<Token> -> real, a: real, b: real)
    requires Live(s, p) && !Done(s, p) && n <= s.vocab
    requires forall y :: Complete(s, y) && p <= y ==> h(y) == a * f(y) + b * g(y)
    ensures BranchSum(s, p, n, h) == a * BranchSum(s, p, n, f) + b * BranchSum(s, p, n, g)
    decreases s.horizon - |p|, n
  {
    if n > 0 {
      BranchLinear(s, p, n - 1, f, g, h, a, b);
      TreeLinear(s, p + [n - 1], f, g, h, a, b);
    }
  }

  /** A scaled function has the scaled sum. */
  lemma TreeScaled(s: Setting, p: seq<Token>, f: seq<Token> -> real, h: seq<Token> -> real, a: real, total: real)
    requires Live(s, p) && TreeSum(s, p, f) == total
    requires forall y :: Complete(s, y) && p <= y ==> h(y) == a * f(y)
    ensures TreeSum(s, p, h) == a * total
  {
    TreeLinear(s, p, f, f, h, a, 0.0);
  }

  /** Sums of pointwise equal functions are equal. */
  lemma TreeEqual(s: Setting, p: seq<Token>, f: seq<Token> -> real, h: seq<Token> -> real)
    requires Live(s, p)
    requires forall y :: Complete(s, y) && p <= y ==> h(y) == f(y)
    ensures TreeSum(s, p, h) == TreeSum(s, p, f)
  {
    TreeLinear(s, p, f, f, h, 1.0, 0.0);
  }

  lemma TreeZero(s: Setting, p: seq<Token>, f: seq<Token> -> real)
    requires Live(s, p)
    requires forall y :: Complete(s, y) && p <= y ==> f(y) == 0.0
    ensures TreeSum(s, p, f) == 0.0
  {
    TreeLinear(s, p, f, f, f, 0.0, 0.0);
  }

  lemma {:induction false} TreeNonNegative(s: Setting, p: seq<Token>, f: seq<Token> -> real)
    requires Live(s, p)
    requires forall y :: Complete(s, y) && p <= y ==> f(y) >= 0.0
    ensures TreeSum(s, p, f) >= 0.0
    decreases s.horizon - |p|, s.vocab + 1
  {
    if !Done(s, p) {
      BranchNonNegative(s, p, s.vocab, f);
    }
  }

  lemma {:induction false} BranchNonNegative(s: Setting, p: seq<Token>, n: nat, f: seq<Token> -> real)
    requires Live(s, p) && !Done(s, p) && n <= s.vocab
    requires forall y :: Complete(s, y) && p <= y ==> f(y) >= 0.0
    ensures BranchSum(s, p, n, f) >= 0.0
    decreases s.horizon - |p|, n
  {
    if n > 0 {
      BranchNonNegative(s, p, n - 1, f);
      TreeNonNegative(s, p + [n - 1], f);
    }
  }

  /** Only the subtree below `q` counts for a function that vanishes outside it. */
  lemma {:induction false} TreeLocal(s: Setting, p: seq<Token>, q: seq<Token>, f: seq<Token> -> real)
    requires Live(s, q) && p <= q
    requires forall y :: Complete(s, y) && !(q <= y) ==> f(y) == 0.0
    ensures TreeSum(s, p, f) == TreeSum(s, q, f)
    decreases |q| - |p|
  {
    if p != q {
      var t := q[|p|];
      assert Live(s, p) && !Done(s, p);
      assert p + [t] <= q;
      BranchLocal(s, p, t, s.vocab, f);
      TreeLocal(s, p + [t], q, f);
    } else {
      assert p == q;
    }
  }

  lemma {:induction false} BranchLocal(s: Setting, p: seq<Token>, t: Token, n: nat, f: seq<Token> -> real)
    requires Live(s, p) && !Done(s, p) && 0 <= t < s.vocab && n <= s.vocab
    requires forall y :: Complete(s, y) && !(p + [t] <= y) ==> f(y) == 0.0
    ensures BranchSum(s, p, n, f) == if t < n then TreeSum(s, p + [t], f) else 0.0
  {
    if n > 0 {
      BranchLocal(s, p, t, n - 1, f);
      if n - 1 != t {
        forall y | Complete(s, y) && p + [n - 1] <= y
          ensures f(y) == 0.0
        {
          assert y[|p|] == n - 1;
        }
        TreeZero(s, p + [n - 1], f);
      }
    }
  }

  /** The sum of a function that is zero except at one completed sequence. */
  lemma TreePoint(s: Setting, y: seq<Token>, f: seq<Token> -> real)
    requires ValidSetting(s) && Complete(s, y)
    requires forall z :: Complete(s, z) && z != y ==> f(z) == 0.0
    ensures TreeSum(s, [], f) == f(y)
  {
    forall z | Complete(s, z) && !(y <= z)
      ensures f(z) == 0.0
    {
    }
    TreeLocal(s, [], y, f);
  }
}
