/** Decimal numerals: how they are written, what they denote, and that they are dense. */
module Decimals {

  predicate IsDigit(c: char) {
    '0' <= c <= '9'
  }

  predicate AllDigits(s: string) {
    forall i :: 0 <= i < |s| ==> IsDigit(s[i])
  }

  function ReadDigits(s: string): nat
    requires AllDigits(s)
  {
    if s == "" then 0 else ReadDigits(s[..|s| - 1]) * 10 + (s[|s| - 1] as int - '0' as int)
  }

  /** The digits of n, with leading zeros up to the width. */
  function WriteDigits(n: nat, width: nat): (s: string)
    ensures AllDigits(s) && |s| >= width && |s| >= 1
    decreases n, width
  {
    if n < 10 && width <= 1 then [('0' as int + n) as char]
    else WriteDigits(n / 10, if width == 0 then 0 else width - 1) + [('0' as int + n % 10) as char]
  }

  lemma {:induction false} DigitsReadBack(n: nat, width: nat)
    ensures ReadDigits(WriteDigits(n, width)) == n
    decreases n, width
  {
    if n < 10 && width <= 1 {
      assert WriteDigits(n, width)[..0] == "";
    } else {
      var w := if width == 0 then 0 else width - 1;
      var s := WriteDigits(n / 10, w);
      DigitsReadBack(n / 10, w);
      assert WriteDigits(n, width)[..|s|] == s;
    }
  }

  function Pow10(k: nat): (p: nat)
    ensures p > k
  {
    if k == 0 then 1 else 10 * Pow10(k - 1)
  }

  /** A numeral: a sign, digits, and digits after a decimal point if there are any. */
  datatype Decimal = Decimal(negative: bool, whole: string, fraction: string)

  function Signed(negative: bool, n: nat): int {
    var m: int := n;
    if negative then -m else m
  }

  predicate Valid(d: Decimal) {
    AllDigits(d.whole) && AllDigits(d.fraction) && d.whole != ""
  }

  function Spelled(d: Decimal): string {
    (if d.negative then "-" else "") + d.whole + if d.fraction == "" then "" else "." + d.fraction
  }

  function ValueOf(d: Decimal): real
    requires Valid(d)
  {
    Signed(d.negative, ReadDigits(d.whole + d.fraction)) as real / Pow10(|d.fraction|) as real
  }

  lemma ValueIs(d: Decimal, n: int, k: nat)
    requires Valid(d) && |d.fraction| == k && Signed(d.negative, ReadDigits(d.whole + d.fraction)) == n
    ensures ValueOf(d) == n as real / Pow10(k) as real
  {
  }

  /** Every n / 10^k has a numeral. */
  lemma DecimalFor(n: int, k: nat) returns (d: Decimal)
    requires k > 0
    ensures Valid(d) && ValueOf(d) == n as real / Pow10(k) as real
  {
    var m: nat := if n < 0 then -n else n;
    var s := WriteDigits(m, k + 1);
    DigitsReadBack(m, k + 1);
    hide ReadDigits, WriteDigits, Pow10, ValueOf;
    d := Decimal(n < 0, s[..|s| - k], s[|s| - k..]);
    assert d.whole + d.fraction == s;
    ValueIs(d, n, k);
  }

  /** Between any two reals there is a numeral. */
  lemma DecimalBetween(lo: real, hi: real) returns (d: Decimal)
    requires lo < hi
    ensures Valid(d) && lo < ValueOf(d) < hi
  {
    QuotientMonotone(0.0, 1.0, hi - lo);
    var k: nat := (1.0 / (hi - lo)).Floor + 1;
    var p := Pow10(k) as real;
    hide ValueOf, Pow10, Valid;
    assert p > 1.0 / (hi - lo);
    Scaled(p, hi - lo);
    var n := (lo * p).Floor + 1;
    d := DecimalFor(n, k);
    Unscaled(lo, hi, n as real, p);
  }

  lemma QuotientMonotone(a: real, b: real, w: real)
    requires w > 0.0 && a <= b
    ensures a / w <= b / w
  {
  }

  lemma Scaled(p: real, width: real)
    requires width > 0.0 && p > 1.0 / width
    ensures p * width > 1.0
  {
    var a := p * width;
    assert a / width == p;
    if a <= 1.0 {
      QuotientMonotone(a, 1.0, width);
    }
  }

  lemma Unscaled(lo: real, hi: real, n: real, p: real)
    requires p > 0.0 && p * (hi - lo) > 1.0 && lo * p < n <= lo * p + 1.0
    ensures lo < n / p < hi
  {
    var q := n / p;
    assert q * p == n;
    assert (q - lo) * p > 0.0;
    assert (hi - q) * p > 0.0;
  }
}
