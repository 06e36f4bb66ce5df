/** Bytes, decimal numerals and UTF-8. */
module Bytes {

  type Byte = b: int | 0 <= b < 256

  const COLON: Byte := 58
  const MINUS: Byte := 45

  // ----- decimal numerals -----

  predicate IsDigit(b: Byte) {
    48 <= b <= 57
  }

  ghost predicate Without(b: Byte, s: seq<Byte>) {
    forall i :: 0 <= i < |s| ==> s[i] != b
  }

  function Decimal(n: nat): seq<Byte> {
    if n < 10 then [48 + n] else Decimal(n / 10) + [48 + n % 10]
  }

  function Value(s: seq<Byte>): int {
    if s == [] then 0 else 10 * Value(s[..|s| - 1]) + (s[|s| - 1] as int - 48)
  }

  lemma {:induction false} DecimalValue(n: nat)
    ensures Value(Decimal(n)) == n && |Decimal(n)| > 0
    ensures forall i :: 0 <= i < |Decimal(n)| ==> IsDigit(Decimal(n)[i])
  {
    if n < 10 {
      assert [48 + n][..0] == [];
    } else {
      DecimalValue(n / 10);
      assert Decimal(n)[..|Decimal(n)| - 1] == Decimal(n / 10);
    }
  }

  /** A signed integer, as Python's str prints it. */
  function Numeral(n: int): seq<Byte> {
    if n < 0 then [MINUS] + Decimal(-n) else Decimal(n)
  }

  lemma NumeralWithoutColon(n: int)
    ensures Without(COLON, Numeral(n))
  {
    DecimalValue(if n < 0 then -n else n);
  }

  lemma NumeralInjective(m: int, n: int)
    requires Numeral(m) == Numeral(n)
    ensures m == n
  {
    DecimalValue(if m < 0 then -m else m);
    DecimalValue(if n < 0 then -n else n);
    assert m >= 0 ==> IsDigit(Numeral(m)[0]);
    assert n >= 0 ==> IsDigit(Numeral(n)[0]);
    if m < 0 {
      assert Numeral(m)[1..] == Decimal(-m) && Numeral(n)[1..] == Decimal(-n);
    }
  }

  /** A field that lacks the separator ends at the first separator. */
  lemma FieldEnds(a: seq<Byte>, b: seq<Byte>, x: seq<Byte>, y: seq<Byte>)
    requires Without(COLON, a) && Without(COLON, b)
    requires a + [COLON] + x == b + [COLON] + y
    ensures a == b && x == y
  {
    var s, t := a + [COLON] + x, b + [COLON] + y;
    assert s[|a|] == COLON && t[|b|] == COLON;
    assert |a| == |b| by {
      assert forall i :: 0 <= i < |a| ==> s[i] == a[i];
      assert forall i :: 0 <= i < |b| ==> t[i] == b[i];
    }
    assert a == s[..|a|] && b == t[..|b|];
    assert x == s[|a| + 1..] && y == t[|b| + 1..];
  }

  /** A block whose length is known ends where it says. */
  lemma BlockEnds(a: seq<Byte>, b: seq<Byte>, x: seq<Byte>, y: seq<Byte>)
    requires |a| == |b| && a + x == b + y
    ensures a == b && x == y
  {
    assert a == (a + x)[..|a|] && b == (b + y)[..|b|];
    assert x == (a + x)[|a|..] && y == (b + y)[|b|..];
  }

  // ----- UTF-8 (section 3 of RFC 3629) -----

  type CodePoint = c: int | 0 <= c < 0xD800 || 0xE000 <= c < 0x11_0000

  function Encoded(c: CodePoint): seq<Byte> {
    if c < 0x80 then [c]
    else if c < 0x800 then [0xC0 + c / 64, 0x80 + c % 64]
    else if c < 0x1_0000 then [0xE0 + c / 4096, 0x80 + c / 64 % 64, 0x80 + c % 64]
    else [0xF0 + c / 262144, 0x80 + c / 4096 % 64, 0x80 + c / 64 % 64, 0x80 + c % 64]
  }

  /** The code point whose encoding starts the bytes, and how many bytes it takes. */
  function FirstPoint(s: seq<Byte>): (int, nat)
    requires |s| >= 4
  {
    if s[0] < 0x80 then (s[0], 1)
    else if s[0] < 0xE0 then (64 * (s[0] as int - 0xC0) + (s[1] as int - 0x80), 2)
    else if s[0] < 0xF0 then (4096 * (s[0] as int - 0xE0) + 64 * (s[1] as int - 0x80) + (s[2] as int - 0x80), 3)
    else (262144 * (s[0] as int - 0xF0) + 4096 * (s[1] as int - 0x80) + 64 * (s[2] as int - 0x80)
          + (s[3] as int - 0x80), 4)
  }

  lemma EncodedDecodes(c: CodePoint, x: seq<Byte>)
    requires |Encoded(c) + x| >= 4
    ensures FirstPoint(Encoded(c) + x) == (c, |Encoded(c)|)
  {
    var s := Encoded(c) + x;
    assert forall i :: 0 <= i < |Encoded(c)| ==> s[i] == Encoded(c)[i];
    assert c / 4096 == c / 64 / 64 && c / 262144 == c / 4096 / 64;
  }

  /** UTF-8 is self-delimiting: the first code point of a byte string is determined by it. */
  lemma EncodedPrefixFree(c: CodePoint, d: CodePoint, x: seq<Byte>, y: seq<Byte>)
    requires Encoded(c) + x == Encoded(d) + y
    ensures c == d && x == y
  {
    var pad := [0, 0, 0, 0];
    EncodedDecodes(c, x + pad);
    EncodedDecodes(d, y + pad);
    assert Encoded(c) + (x + pad) == Encoded(c) + x + pad;
    assert Encoded(d) + (y + pad) == Encoded(d) + y + pad;
    BlockEnds(Encoded(c), Encoded(d), x, y);
  }

  function Utf8(s: seq<CodePoint>): seq<Byte> {
    if s == [] then [] else Encoded(s[0]) + Utf8(s[1..])
  }

  /** As many code points as announced can be read back from a longer byte string. */
  lemma {:induction false} Utf8Ends(a: seq<CodePoint>, b: seq<CodePoint>, x: seq<Byte>, y: seq<Byte>)
    requires |a| == |b| && Utf8(a) + x == Utf8(b) + y
    ensures a == b && x == y
  {
    if a == [] {
      assert x == Utf8(a) + x && y == Utf8(b) + y;
    } else {
      assert Utf8(a) + x == Encoded(a[0]) + (Utf8(a[1..]) + x);
      assert Utf8(b) + y == Encoded(b[0]) + (Utf8(b[1..]) + y);
      EncodedPrefixFree(a[0], b[0], Utf8(a[1..]) + x, Utf8(b[1..]) + y);
      Utf8Ends(a[1..], b[1..], x, y);
      assert a == [a[0]] + a[1..] && b == [b[0]] + b[1..];
    }
  }
}
