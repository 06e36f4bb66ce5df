/** When a reported unit conflict is also a wrong value: exactly when the ends of the accepted
    interval do not round outwards at nine decimals. */
module ConflictRounding {
  import opened AnswerText
  import opened Comparatives
  import opened Decimals
  import opened NumberGrading
  import opened Spans
  import opened Wrappers

  lemma NearestMonotone(x: real, y: real)
    requires x <= y
    ensures Nearest(x) <= Nearest(y)
  {
    var m, n := x.Floor, y.Floor;
    if m == n {
      assert x - m as real <= y - n as real;
    }
  }

  lemma Round9Monotone(x: real, y: real)
    requires x <= y
    ensures Round9(x) <= Round9(y)
    ensures y - x >= EPS && Round9(y) > y ==> Round9(x) < Round9(y)
    ensures y - x >= EPS && Round9(x) < x ==> Round9(x) < Round9(y)
  {
    var p, q := x * 1000000000.0, y * 1000000000.0;
    NearestMonotone(p, q);
    assert p - 0.5 <= Nearest(p) as real <= p + 0.5 && q - 0.5 <= Nearest(q) as real <= q + 0.5;
  }

  /** The upper and lower ends of the accepted interval do not round outwards. */
  predicate RoundingSafe(f: NumericFact) {
    var t := f.tolerance + EPS;
    Round9(f.value + t) <= f.value + t && Round9(f.value - t) >= f.value - t
  }

  lemma SafeRounding(f: NumericFact, x: real)
    requires RoundingSafe(f) && !Outside(f, x)
    ensures !Outside(f, Round9(x))
  {
    var t := f.tolerance + EPS;
    Round9Monotone(x, f.value + t);
    Round9Monotone(f.value - t, x);
  }

  /** On a fact whose interval ends are safe, a reported conflict is also a wrong value. */
  lemma ConflictIsWrong(f: NumericFact, a: Answer)
    requires RoundingSafe(f) && Mentioned(f, a) && Conflict(f, a)
    ensures Wrong(f, a)
  {
    var r, q :| Seen(f, a, |a.found|, r) && Seen(f, a, |a.found|, q) && Outside(f, r) && r != q;
    var i :| 0 <= i < |a.found| && Measures(f, a, a.found[i]) && Round9(Measured(f, a.found[i])) == r;
    if !Outside(f, Measured(f, a.found[i])) {
      SafeRounding(f, Measured(f, a.found[i]));
    }
    assert WrongValue(f, a, a.found[i]);
  }

  lemma OnGrid(x: real, n: int)
    requires x * 1000000000.0 == n as real
    ensures Round9(x) == x
  {
  }

  /** Facts written with at most nine decimals are safe. */
  lemma NineDecimalsSafe(f: NumericFact, v: int, t: int)
    requires f.value * 1000000000.0 == v as real && f.tolerance * 1000000000.0 == t as real
    ensures RoundingSafe(f)
  {
    OnGrid(f.value + (f.tolerance + EPS), v + t + 1);
    OnGrid(f.value - (f.tolerance + EPS), v - t - 1);
  }

  // ----- the witness -----

  function Report(f: NumericFact, d: Decimal, start: nat): Candidate
    requires Valid(d)
  {
    Candidate(ValueOf(d), Some(f.unit), start, None, false)
  }

  /** What stands before the first number, and between the two. */
  function Lead(w: string): string {
    w + " is "
  }

  function Middle(w: string): string {
    " and " + w + " is "
  }

  function ReportText(w: string, x: string, y: string): string {
    Lead(w) + x + Middle(w) + y
  }

  /** Such as "humidity is 62.5 % and humidity is 61.0 %". */
  function TwoReports(cs: Chars, f: NumericFact, x: Decimal, y: Decimal): Answer
    requires Valid(x) && Valid(y) && f.anchors != []
  {
    var w, u, v := f.anchors[0], Measurement(x, Some(f.unit)), Measurement(y, Some(f.unit));
    Answer(cs, ReportText(w, u, v),
           [Report(f, x, |Lead(w)|), Report(f, y, |Lead(w)| + |u| + |Middle(w)|)])
  }

  lemma StandsThere(cs: Chars, f: NumericFact, d: Decimal, a: string, b: string)
    requires Valid(d) && AsciiClasses(cs)
    ensures Stands(cs, a + " is " + Measurement(d, Some(f.unit)) + b, Report(f, d, |a| + 4), d)
  {
    PartAt(a + " is ", Measurement(d, Some(f.unit)), b);
    assert a + " is " + Measurement(d, Some(f.unit)) + b == a + " is " + (Measurement(d, Some(f.unit)) + b);
    PlainAfterIs(cs, a, Measurement(d, Some(f.unit)) + b);
    hide ComparativeAt, TemporalAt;
  }

  lemma TextParts(w: string, x: string, y: string)
    ensures ReportText(w, x, y) == Lead(w) + x + (Middle(w) + y)
    ensures ReportText(w, x, y) == (Lead(w) + x + Middle(w)) + y + ""
    ensures ReportText(w, x, y) == w + (" is " + x + Middle(w) + y)
    ensures ReportText(w, x, y) == (Lead(w) + x + " and ") + w + (" is " + y)
  {
  }

  /** The anchor occurs before each number. */
  lemma AnchorsOccur(cs: Chars, w: string, x: string, y: string)
    requires w != "" && AsciiClasses(cs)
    ensures OccursAt(cs, ReportText(w, x, y), w, 0)
    ensures OccursAt(cs, ReportText(w, x, y), w, |Lead(w) + x| + 5)
  {
    TextParts(w, x, y);
    OccursThere(cs, "", w, " is " + x + Middle(w) + y);
    assert "" + w + (" is " + x + Middle(w) + y) == ReportText(w, x, y);
    OccursThere(cs, Lead(w) + x + " and ", w, " is " + y);
  }

  lemma DigitsInNumerals(w: string, u: string, x: string, y: string, p: nat)
    requires NoDigit(w) && NoDigit(u) && p < |ReportText(w, x + u, y + u)|
    requires IsDigit(ReportText(w, x + u, y + u)[p])
    ensures |Lead(w)| <= p < |Lead(w)| + |x|
      || |Lead(w) + (x + u) + Middle(w)| <= p < |Lead(w) + (x + u) + Middle(w)| + |y|
  {
    assert NoDigit(Lead(w)) && NoDigit(Middle(w));
    var a, b, c := Lead(w), Lead(w) + (x + u), Lead(w) + (x + u) + Middle(w);
    var text := ReportText(w, x + u, y + u);
    assert forall k :: 0 <= k < |a| ==> text[k] == a[k];
    assert forall k :: |b| <= k < |c| ==> text[k] == Middle(w)[k - |b|];
    if |a| <= p < |b| {
      assert text[p] == (x + u)[p - |a|];
    } else if |c| <= p {
      assert text[p] == (y + u)[p - |c|];
    }
  }

  lemma NumbersFollowIs(w: string, x: string, y: string)
    ensures ReportText(w, x, y) == w + " is " + x + (Middle(w) + y) && |Lead(w)| == |w| + 4
    ensures ReportText(w, x, y) == (Lead(w) + x + " and " + w) + " is " + y + ""
    ensures |Lead(w) + x + " and " + w| + 4 == |Lead(w)| + |x| + |Middle(w)|
  {
  }

  lemma FirstStands(cs: Chars, f: NumericFact, x: Decimal, w: string, y: string)
    requires Valid(x) && AsciiClasses(cs)
    ensures Stands(cs, ReportText(w, Measurement(x, Some(f.unit)), y), Report(f, x, |Lead(w)|), x)
  {
    var u := Measurement(x, Some(f.unit));
    NumbersFollowIs(w, u, y);
    hide Stands, Measurement, Lead, Middle, ReportText, AsciiClasses;
    StandsThere(cs, f, x, w, Middle(w) + y);
  }

  lemma SecondStands(cs: Chars, f: NumericFact, y: Decimal, w: string, x: string)
    requires Valid(y) && AsciiClasses(cs)
    ensures Stands(cs, ReportText(w, x, Measurement(y, Some(f.unit))), Report(f, y, |Lead(w)| + |x| + |Middle(w)|), y)
  {
    var v := Measurement(y, Some(f.unit));
    NumbersFollowIs(w, x, v);
    hide Stands, Measurement, Lead, Middle, ReportText, AsciiClasses;
    StandsThere(cs, f, y, Lead(w) + x + " and " + w, "");
  }

  lemma ReportsStand(cs: Chars, f: NumericFact, x: Decimal, y: Decimal)
    requires Valid(x) && Valid(y) && f.anchors != [] && AsciiClasses(cs)
    ensures Stands(cs, TwoReports(cs, f, x, y).text, TwoReports(cs, f, x, y).found[0], x)
    ensures Stands(cs, TwoReports(cs, f, x, y).text, TwoReports(cs, f, x, y).found[1], y)
  {
    hide Stands, Measurement, Lead, Middle, ReportText, AsciiClasses, Valid, ValueOf, Report;
    var w, u, v := f.anchors[0], Measurement(x, Some(f.unit)), Measurement(y, Some(f.unit));
    var a := TwoReports(cs, f, x, y);
    assert a.text == ReportText(w, u, v);
    assert a.found[0] == Report(f, x, |Lead(w)|) && a.found[1] == Report(f, y, |Lead(w)| + |u| + |Middle(w)|);
    hide TwoReports;
    FirstStands(cs, f, x, w, v);
    SecondStands(cs, f, y, w, u);
  }

  /** A text with two numbers in the same unit, read as they stand. */
  lemma TwoNumbersReadable(a: Answer, w: string, u: string, x: Decimal, y: Decimal)
    requires |a.found| == 2 && Stands(a.cs, a.text, a.found[0], x) && Stands(a.cs, a.text, a.found[1], y)
    requires a.text == ReportText(w, Spelled(x) + u, Spelled(y) + u) && NoDigit(w) && NoDigit(u)
    requires a.found[0].start == |Lead(w)| && a.found[1].start == |Lead(w) + (Spelled(x) + u) + Middle(w)|
    requires Measurement(x, a.found[0].unit) == Spelled(x) + u
    ensures Readable(a)
  {
    hide Stands, Spelled, NoDigit, ReportText, Lead, Middle, Measurement;
    var ds := [x, y];
    forall p | 0 <= p < |a.text| && IsDigit(a.text[p])
      ensures exists i :: 0 <= i < |ds| && InNumeral(a.found[i], ds[i], p)
    {
      DigitsInNumerals(w, u, Spelled(x), Spelled(y), p);
      assert InNumeral(a.found[0], ds[0], p) || InNumeral(a.found[1], ds[1], p);
    }
    assert ReadAs(a, ds);
  }

  lemma ReportsReadable(cs: Chars, f: NumericFact, x: Decimal, y: Decimal)
    requires Valid(x) && Valid(y) && f.anchors != [] && NoDigit(f.anchors[0]) && AsciiClasses(cs)
    ensures Readable(TwoReports(cs, f, x, y))
  {
    ReportsStand(cs, f, x, y);
    SurfaceNoDigit(Some(f.unit));
    hide Stands, Spelled, Surface, NoDigit, Readable, ReportText, Lead, Middle;
    TwoNumbersReadable(TwoReports(cs, f, x, y), f.anchors[0], Surface(Some(f.unit)), x, y);
  }

  lemma ReportsNear(cs: Chars, f: NumericFact, x: Decimal, y: Decimal)
    requires Valid(x) && Valid(y) && f.anchors != [] && f.anchors[0] != "" && AsciiClasses(cs)
    ensures var a := TwoReports(cs, f, x, y);
      Mentioned(f, a) && Near(f, a, a.found[0]) && Near(f, a, a.found[1])
  {
    var w, u, v := f.anchors[0], Measurement(x, Some(f.unit)), Measurement(y, Some(f.unit));
    var a := TwoReports(cs, f, x, y);
    AnchorsOccur(cs, w, u, v);
    assert TermMatches(cs, a.text, f.anchors[0]);
    assert |Lead(w)| == |w| + 4 && |Middle(w)| == |w| + 9;
    hide OccursAt, Lead, Middle, Measurement;
    assert a.found[0].start == |w| + 4 && a.found[1].start == |Lead(w) + u| + 5 + |w| + 4;
  }

  /** Two measurements within tolerance that round apart, one of them outwards, are a conflict
      and no wrong value. */
  lemma UnsafeConflict(cs: Chars, f: NumericFact, x: Decimal, y: Decimal)
    requires Valid(x) && Valid(y) && f.anchors != [] && f.anchors[0] != "" && AsciiClasses(cs)
    requires !Outside(f, ValueOf(x)) && !Outside(f, ValueOf(y))
    requires Outside(f, Round9(ValueOf(x))) && Round9(ValueOf(x)) != Round9(ValueOf(y))
    ensures var a := TwoReports(cs, f, x, y);
      Mentioned(f, a) && Conflict(f, a) && !Wrong(f, a)
  {
    var a := TwoReports(cs, f, x, y);
    ReportsNear(cs, f, x, y);
    hide Near, ReportText, Round9, Measurement, ValueOf, Mentioned;
    assert Measures(f, a, a.found[0]) && Measures(f, a, a.found[1]);
    assert Measured(f, a.found[0]) == ValueOf(x) && Measured(f, a.found[1]) == ValueOf(y);
    assert Seen(f, a, 2, Round9(ValueOf(x))) && Seen(f, a, 2, Round9(ValueOf(y)));
    forall i | 0 <= i < |a.found|
      ensures !WrongValue(f, a, a.found[i])
    {
    }
  }

  const GRID := 1000000000.0

  lemma NearestAbove(z: real, n: int)
    requires n as real + 0.5 < z < n as real + 1.0
    ensures Nearest(z) == n + 1
  {
    assert z.Floor == n;
  }

  lemma NearestBelow(z: real, n: int)
    requires n as real <= z < n as real + 0.5
    ensures Nearest(z) == n
  {
    assert z.Floor == n;
  }

  /** The midpoint of a grid cell has a numeral with ten decimals. */
  lemma MidpointNumeral(e: real, n: int) returns (x: Decimal)
    requires e * GRID == n as real + 0.5
    ensures Valid(x) && ValueOf(x) == e
  {
    x := DecimalFor(10 * n + 5, 10);
    assert Pow10(5) == 100000;
    assert Pow10(10) as real == 10000000000.0;
  }

  /** At or below an end that rounds upwards there is a numeral that does, too. */
  lemma RoundsUpBelow(e: real) returns (x: Decimal)
    requires Round9(e) > e
    ensures Valid(x) && e - EPS / 2.0 <= ValueOf(x) <= e && Round9(ValueOf(x)) == Round9(e)
  {
    var n := (e * GRID).Floor;
    if e * GRID == n as real + 0.5 {
      x := MidpointNumeral(e, n);
    } else {
      x := DecimalBetween((n as real + 0.5) / GRID, e);
      NearestAbove(e * GRID, n);
      NearestAbove(ValueOf(x) * GRID, n);
    }
  }

  /** At or above an end that rounds downwards there is a numeral that does, too. */
  lemma RoundsDownAbove(e: real) returns (x: Decimal)
    requires Round9(e) < e
    ensures Valid(x) && e <= ValueOf(x) <= e + EPS / 2.0 && Round9(ValueOf(x)) == Round9(e)
  {
    var n := (e * GRID).Floor;
    if e * GRID == n as real + 0.5 {
      x := MidpointNumeral(e, n);
    } else {
      x := DecimalBetween(e, (n as real + 0.5) / GRID);
      NearestBelow(e * GRID, n);
      NearestBelow(ValueOf(x) * GRID, n);
    }
  }

  lemma RoundingError(x: real)
    ensures x - EPS / 2.0 <= Round9(x) <= x + EPS / 2.0
  {
  }

  lemma UnsafeWitness(cs: Chars, f: NumericFact) returns (a: Answer)
    requires f.tolerance >= 0.0 && f.anchors != [] && f.anchors[0] != "" && NoDigit(f.anchors[0])
    requires AsciiClasses(cs) && !RoundingSafe(f)
    ensures a.cs == cs && Readable(a) && Mentioned(f, a) && Conflict(f, a) && !Wrong(f, a)
  {
    hide Round9, ValueOf, Readable, Mentioned, Conflict, Wrong;
    var t := f.tolerance + EPS;
    var x, y;
    if Round9(f.value + t) > f.value + t {
      x := RoundsUpBelow(f.value + t);
      y := DecimalBetween(f.value - EPS / 2.0, f.value);
    } else {
      x := RoundsDownAbove(f.value - t);
      y := DecimalBetween(f.value, f.value + EPS / 2.0);
    }
    RoundingError(ValueOf(y));
    a := TwoReports(cs, f, x, y);
    ReportsReadable(cs, f, x, y);
    UnsafeConflict(cs, f, x, y);
  }

  /** A conflict implies a wrong value on every answer whose numbers stand in its text exactly
      when the ends of the accepted interval do not round outwards at nine decimals. */
  lemma ConflictIsWrongIff(cs: Chars, f: NumericFact)
    requires f.tolerance >= 0.0 && f.anchors != [] && f.anchors[0] != "" && NoDigit(f.anchors[0])
    requires AsciiClasses(cs)
    ensures RoundingSafe(f) <==>
      forall a: Answer :: a.cs == cs && Readable(a) && Mentioned(f, a) && Conflict(f, a) ==> Wrong(f, a)
  {
    if RoundingSafe(f) {
      forall a: Answer | Mentioned(f, a) && Conflict(f, a)
        ensures Wrong(f, a)
      {
        ConflictIsWrong(f, a);
      }
    } else {
      var a := UnsafeWitness(cs, f);
    }
  }
}
