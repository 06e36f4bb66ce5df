/** What the numbers of an answer, and its denials, make of a fact: plain arithmetic on plain text. */
module SoleReports {
  import opened AnswerText
  import opened Comparatives
  import opened Decimals
  import opened DenyMarkers
  import opened NegatedBounds
  import opened NumberGrading
  import opened Spans
  import opened Wrappers

  // ----- one number -----

  /** x lies within the tolerance, and a billionth, of the fact's value. */
  predicate Agrees(f: NumericFact, x: real) {
    f.value - f.tolerance - 0.000000001 <= x <= f.value + f.tolerance + 0.000000001
  }

  /** The fact's own value satisfies the comparison with x. */
  predicate Allows(op: Op, f: NumericFact, x: real) {
    && (op == Op.Less ==> f.value < x) && (op == Op.Greater ==> f.value > x)
    && (op == AtMost ==> f.value <= x) && (op == AtLeast ==> f.value >= x)
  }

  /** The status of a fact by an undenied answer with one number, x being that number in the
      fact's unit if it converts. */
  function SoleStatus(f: NumericFact, c: Candidate, x: Option<real>, near: bool, mentioned: bool): Status {
    if c.op.Some? then
      if near && (x.None? || !Allows(c.op.value, f, x.value)) then Contradicted else Missing
    else if x.None? then Missing
    else if near then
      if Agrees(f, x.value) then Present
      else if c.unit == None && c.temporal then Missing
      else Contradicted
    else if Agrees(f, x.value) && c.unit.Some? && !f.relation && !mentioned then Present
    else Missing
  }

  lemma AgreesInside(f: NumericFact, x: real)
    ensures Agrees(f, x) <==> !Outside(f, x)
  {
  }

  lemma AllowsHolds(op: Op, f: NumericFact, x: real)
    ensures Allows(op, f, x) <==> Holds(op, f.value, x)
  {
  }

  /** One number decides the fact: near an anchor a value within tolerance grounds it and any
      other contradicts it, unless it is bare and a date or time; a comparison never grounds it
      and contradicts it exactly if it excludes the fact's value; away from the anchors only a
      value with a unit, in an answer that names no anchor, grounds a number fact. */
  lemma SoleNumberDecides(f: NumericFact, a: Answer, e: Evidence)
    requires |a.found| == 1 && !Denied(f, a) && IsEvidence(f, a, e)
    ensures var c := a.found[0];
      e.status == SoleStatus(f, c, ToUnit(c.value, c.unit, f.unit), Near(f, a, c), Mentioned(f, a))
  {
    var c := a.found[0];
    var x := ToUnit(c.value, c.unit, f.unit);
    hide Denied, ToUnit;
    BareNumber(f, c);
    if Near(f, a, c) {
      NearMeansMentioned(f, a, c);
    }
    if x.Some? {
      AgreesInside(f, x.value);
      if c.op.Some? {
        AllowsHolds(c.op.value, f, x.value);
      }
    }
    NoSoleConflict(f, a);
    hide Near, Mentioned, Conflict, Outside, Agrees, Allows, Holds;
    assert WrongValue(f, a, c) ==> Near(f, a, c);
    assert e.coverage <==> (f.relation ==> Mentioned(f, a)) && Grounds(f, a, c);
    assert e.contradicted <==> Mentioned(f, a) && WrongValue(f, a, c);
  }

  lemma BareNumber(f: NumericFact, c: Candidate)
    ensures c.unit == None ==> ToUnit(c.value, c.unit, f.unit) == Some(c.value)
  {
  }

  lemma NoSoleConflict(f: NumericFact, a: Answer)
    requires |a.found| == 1
    ensures !Conflict(f, a)
  {
    hide Round9, Measures, Measured, Outside;
  }

  /** Whatever numbers the answer has: a denial, a conflict or a wrong value contradicts a fact,
      covered or not; without one it is present exactly if it is covered. */
  lemma StatusExactly(f: NumericFact, a: Answer, e: Evidence)
    requires IsEvidence(f, a, e)
    ensures e.status == if Denied(f, a) || (Mentioned(f, a) && Conflict(f, a)) || Wrong(f, a) then Contradicted
                        else if Covered(f, a) then Present
                        else Missing
  {
    hide Denied, Mentioned, Conflict, Wrong, Covered;
  }

  // ----- more than one number -----

  /** The answer as if its i-th number were the only one found. */
  function Only(a: Answer, i: nat): Answer
    requires i < |a.found|
  {
    a.(found := [a.found[i]])
  }

  function Pair(a: Answer, i: nat, j: nat): Answer
    requires i < |a.found| && j < |a.found|
  {
    a.(found := [a.found[i], a.found[j]])
  }

  /** Numbers cover a fact one by one, and, beside another number, those with a unit or a
      comparison contradict it one by one; conflicts are between two. */
  lemma NumberByNumber(f: NumericFact, a: Answer)
    ensures Covered(f, a) <==> exists i :: 0 <= i < |a.found| && Covered(f, Only(a, i))
    ensures |a.found| >= 2 ==>
      (Wrong(f, a) <==>
        exists i :: 0 <= i < |a.found| && (a.found[i].unit.Some? || a.found[i].op.Some?) && Wrong(f, Only(a, i)))
    ensures Conflict(f, a) <==> exists i, j :: 0 <= i < |a.found| && 0 <= j < |a.found| && Conflict(f, Pair(a, i, j))
  {
    CoveredOneByOne(f, a);
    if |a.found| >= 2 {
      WrongOneByOne(f, a);
    }
    ConflictInPairs(f, a);
  }

  lemma CoveredOneByOne(f: NumericFact, a: Answer)
    ensures Covered(f, a) <==> exists i :: 0 <= i < |a.found| && Covered(f, Only(a, i))
  {
    hide NearAnchor, TermMatches, Within;
    forall i | 0 <= i < |a.found|
      ensures Covered(f, Only(a, i)) <==> (f.relation ==> Mentioned(f, a)) && Grounds(f, a, a.found[i])
    {
      var only := Only(a, i);
      assert only.found[0] == a.found[i] && (Mentioned(f, only) <==> Mentioned(f, a));
      assert Grounds(f, only, only.found[0]) <==> Grounds(f, a, a.found[i]);
    }
  }

  lemma WrongOneByOne(f: NumericFact, a: Answer)
    requires |a.found| >= 2
    ensures Wrong(f, a) <==>
      exists i :: 0 <= i < |a.found| && (a.found[i].unit.Some? || a.found[i].op.Some?) && Wrong(f, Only(a, i))
  {
    hide NearAnchor, TermMatches, Holds, Outside, ToUnit;
    forall i | 0 <= i < |a.found| && (a.found[i].unit.Some? || a.found[i].op.Some?)
      ensures Wrong(f, Only(a, i)) <==> Mentioned(f, a) && WrongValue(f, a, a.found[i])
    {
      var only := Only(a, i);
      assert only.found[0] == a.found[i] && (Mentioned(f, only) <==> Mentioned(f, a));
      assert WrongValue(f, only, only.found[0]) <==> WrongValue(f, a, a.found[i]);
    }
    forall i | 0 <= i < |a.found| && a.found[i].unit.None? && a.found[i].op.None?
      ensures !WrongValue(f, a, a.found[i])
    {
    }
  }

  lemma ConflictInPairs(f: NumericFact, a: Answer)
    ensures Conflict(f, a) <==> exists i, j :: 0 <= i < |a.found| && 0 <= j < |a.found| && Conflict(f, Pair(a, i, j))
  {
    hide NearAnchor, TermMatches, Outside, ToUnit, Round9, Measured;
    forall i, j | 0 <= i < |a.found| && 0 <= j < |a.found|
      ensures Conflict(f, Pair(a, i, j)) <==> Differ(f, a, i, j)
    {
      TwoNumbersConflict(f, Pair(a, i, j));
    }
    if Conflict(f, a) {
      var r, q :| Seen(f, a, |a.found|, r) && Seen(f, a, |a.found|, q) && Outside(f, r) && r != q;
      var i :| 0 <= i < |a.found| && Measures(f, a, a.found[i]) && Round9(Measured(f, a.found[i])) == r;
      var j :| 0 <= j < |a.found| && Measures(f, a, a.found[j]) && Round9(Measured(f, a.found[j])) == q;
      assert Differ(f, a, i, j);
    }
    if i, j :| 0 <= i < |a.found| && 0 <= j < |a.found| && Differ(f, a, i, j) {
      assert Seen(f, a, |a.found|, Round9(Measured(f, a.found[i])));
      assert Seen(f, a, |a.found|, Round9(Measured(f, a.found[j])));
    }
  }

  /** Two measurements that round apart, not both to a value within tolerance. */
  ghost predicate Differ(f: NumericFact, a: Answer, i: nat, j: nat)
    requires i < |a.found| && j < |a.found|
  {
    && Measures(f, a, a.found[i]) && Measures(f, a, a.found[j])
    && var r, q := Round9(Measured(f, a.found[i])), Round9(Measured(f, a.found[j]));
    r != q && (Outside(f, r) || Outside(f, q))
  }

  /** Two numbers conflict exactly if both are measurements, they round apart, and not both
      rounded values are within tolerance. */
  lemma TwoNumbersConflict(f: NumericFact, a: Answer)
    requires |a.found| == 2
    ensures Conflict(f, a) <==> Differ(f, a, 0, 1)
  {
    hide Measures, Outside, Round9, Measured;
    if Differ(f, a, 0, 1) {
      var r, q := Round9(Measured(f, a.found[0])), Round9(Measured(f, a.found[1]));
      assert Seen(f, a, 2, r) && Seen(f, a, 2, q);
    }
  }

  /** Rounding to nine decimals gives a multiple of a billionth, no other is nearer, and of two
      equally near it is the even one. */
  lemma NineDecimals(x: real) returns (n: int)
    ensures Round9(x) * 1000000000.0 == n as real
    ensures -0.5 <= n as real - x * 1000000000.0 <= 0.5
    ensures n as real - x * 1000000000.0 == 0.5 || n as real - x * 1000000000.0 == -0.5 ==> n % 2 == 0
  {
    n := Nearest(x * 1000000000.0);
  }

  // ----- conversions -----

  /** 0 and 100 degrees Celsius are 32 and 212 degrees Fahrenheit, and in between the scales
      run evenly: 100 degrees of one are 180 of the other, both ways. */
  lemma TemperatureScales(x: real)
    ensures ToUnit(0.0, Some(Celsius), Fahrenheit) == Some(32.0)
    ensures ToUnit(100.0, Some(Celsius), Fahrenheit) == Some(212.0)
    ensures ToUnit(x, Some(Celsius), Fahrenheit).Some?
      && (ToUnit(x, Some(Celsius), Fahrenheit).value - 32.0) * 100.0 == x * 180.0
    ensures ToUnit(x, Some(Fahrenheit), Celsius).Some?
      && ToUnit(x, Some(Fahrenheit), Celsius).value * 180.0 == (x - 32.0) * 100.0
  {
  }

  /** Values that are bare, in the fact's own unit, or in unspecified degrees for a temperature
      keep their number; a temperature is no percentage and a percentage no temperature. */
  lemma OtherConversions(x: real, target: Unit)
    ensures ToUnit(x, None, target) == ToUnit(x, Some(target), target) == Some(x)
    ensures target in {Celsius, Fahrenheit} ==> ToUnit(x, Some(Degrees), target) == Some(x)
    ensures target in {Celsius, Fahrenheit} ==> ToUnit(x, Some(Percent), target) == None
    ensures forall u :: u in {Celsius, Fahrenheit, Degrees} ==> ToUnit(x, Some(u), Percent) == None
    ensures forall u :: u in {Celsius, Fahrenheit, Percent} ==> ToUnit(x, Some(u), Degrees) == None
  {
  }

  // ----- from the text -----

  /** Such as "temperature is 20 c", read for the number in it. */
  function SoleReport(cs: Chars, w: string, d: Decimal, unit: Option<Unit>): Answer
    requires Valid(d)
  {
    Answer(cs, w + " is " + Measurement(d, unit), [Candidate(ValueOf(d), unit, |w| + 4, None, false)])
  }

  lemma SoleReportStands(cs: Chars, w: string, d: Decimal, unit: Option<Unit>)
    requires Valid(d) && AsciiClasses(cs)
    ensures Stands(cs, SoleReport(cs, w, d, unit).text, SoleReport(cs, w, d, unit).found[0], d)
  {
    var m := Measurement(d, unit);
    MeasurementAt(w, m);
    PlainAfterIs(cs, w, m);
    hide ComparativeAt, TemporalAt, Measurement, AsciiClasses, ValueOf, Valid;
  }

  lemma MeasurementAt(w: string, m: string)
    ensures MatchesAt(w + " is " + m, m, |w| + 4)
  {
  }

  lemma SoleReportReadable(cs: Chars, w: string, d: Decimal, unit: Option<Unit>)
    requires Valid(d) && AsciiClasses(cs) && NoDigit(w)
    ensures Readable(SoleReport(cs, w, d, unit))
  {
    SoleReportStands(cs, w, d, unit);
    assert NoDigit(w + " is ");
    hide Stands, Measurement, NoDigit, Readable, AsciiClasses, ValueOf, Valid;
    SoleNumberReadable(SoleReport(cs, w, d, unit), w + " is ", d);
  }

  lemma SoleReportNear(cs: Chars, f: NumericFact, d: Decimal, unit: Option<Unit>)
    requires Valid(d) && AsciiClasses(cs) && f.anchors != [] && f.anchors[0] != ""
    ensures var a := SoleReport(cs, f.anchors[0], d, unit);
      Mentioned(f, a) && Near(f, a, a.found[0])
  {
    var a, w, m := SoleReport(cs, f.anchors[0], d, unit), f.anchors[0], Measurement(d, unit);
    OccursThere(cs, "", w, " is " + m);
    assert "" + w + (" is " + m) == a.text;
    hide OccursAt, Measurement;
    assert TermMatches(cs, a.text, w);
  }

  /** An undenied report of a fact in any unit, bare included: present if the number converts
      to one within tolerance, contradicted if it converts to another, missing if it is in a
      unit that does not convert. */
  lemma ReportGraded(cs: Chars, f: NumericFact, d: Decimal, unit: Option<Unit>, e: Evidence)
    requires Valid(d) && AsciiClasses(cs) && f.anchors != [] && f.anchors[0] != "" && NoDigit(f.anchors[0])
    requires !Denied(f, SoleReport(cs, f.anchors[0], d, unit))
    requires IsEvidence(f, SoleReport(cs, f.anchors[0], d, unit), e)
    ensures Readable(SoleReport(cs, f.anchors[0], d, unit))
    ensures var x := ToUnit(ValueOf(d), unit, f.unit);
      e.status == if x.None? then Missing else if Agrees(f, x.value) then Present else Contradicted
  {
    SoleReportReadable(cs, f.anchors[0], d, unit);
    SoleReportNear(cs, f, d, unit);
    hide Denied, IsEvidence, ToUnit, Near, Mentioned, Readable, Agrees;
    SoleNumberDecides(f, SoleReport(cs, f.anchors[0], d, unit), e);
  }

  /** A temperature reported in the other scale, in that scale's own arithmetic. */
  lemma OtherScaleGraded(cs: Chars, f: NumericFact, d: Decimal, e: Evidence)
    requires Valid(d) && AsciiClasses(cs) && f.anchors != [] && f.anchors[0] != "" && NoDigit(f.anchors[0])
    requires f.unit in {Celsius, Fahrenheit}
    requires var other := if f.unit == Celsius then Fahrenheit else Celsius;
      var a := SoleReport(cs, f.anchors[0], d, Some(other)); !Denied(f, a) && IsEvidence(f, a, e)
    ensures var v, t := ValueOf(d), f.tolerance + 0.000000001;
      var gap := if f.unit == Celsius then (v - 32.0) * 5.0 - f.value * 9.0 else v * 9.0 + 160.0 - f.value * 5.0;
      var scale := if f.unit == Celsius then 9.0 else 5.0;
      e.status == if -t * scale <= gap <= t * scale then Present else Contradicted
  {
    var other := if f.unit == Celsius then Fahrenheit else Celsius;
    hide Denied, IsEvidence, ValueOf, Valid, NoDigit;
    ReportGraded(cs, f, d, Some(other), e);
    TemperatureScales(ValueOf(d));
  }

  // ----- no denial -----

  /** Every deny marker has an "n" or an "f" in it. */
  lemma MarkerLetters(m: nat)
    requires m < |DENY_MARKERS|
    ensures 'n' in DENY_MARKERS[m] || 'f' in DENY_MARKERS[m]
  {
    assert "not"[0] == 'n';
  }

  lemma LettersOccur(cs: Chars, text: string, term: string, p: nat, c: char)
    requires OccursAt(cs, text, term, p) && c in term
    ensures c in text
  {
    var i :| 0 <= i < |term| && term[i] == c;
    assert text[p..p + |term|][i] == text[p + i];
  }

  /** An answer without those letters denies nothing. */
  lemma NothingDenied(f: NumericFact, a: Answer)
    requires 'n' !in a.text && 'f' !in a.text
    ensures !Denied(f, a)
  {
    forall m, p: nat | 0 <= m < |DENY_MARKERS| && OccursAt(a.cs, a.text, DENY_MARKERS[m], p)
      ensures false
    {
      MarkerLetters(m);
      LettersOccur(a.cs, a.text, DENY_MARKERS[m], p, if 'n' in DENY_MARKERS[m] then 'n' else 'f');
    }
    hide OccursAt;
  }

  lemma TwentyCelsius(cs: Chars)
    ensures Valid(Decimal(false, "20", "")) && ValueOf(Decimal(false, "20", "")) == 20.0
    ensures SoleReport(cs, "temperature", Decimal(false, "20", ""), Some(Celsius)).text == "temperature is 20 c"
    ensures NoDigit("temperature")
  {
    assert "20" + "" == "20" && "20"[..1] == "2" && "2"[..0] == "";
    assert ReadDigits("2") == 2;
  }

  lemma NoDenyingLetters()
    ensures 'n' !in "temperature is 20 c" && 'f' !in "temperature is 20 c"
  {
  }

  /** "temperature is 20 c" reports a temperature of 68 degrees Fahrenheit. */
  lemma TwentyCelsiusPresent(cs: Chars, relation: bool, e: Evidence)
    requires AsciiClasses(cs)
    ensures Valid(Decimal(false, "20", ""))
    ensures var f := NumericFact(relation, 68.0, Fahrenheit, 1.0, ["temperature"]);
      var a := SoleReport(cs, "temperature", Decimal(false, "20", ""), Some(Celsius));
      a.text == "temperature is 20 c" && (IsEvidence(f, a, e) ==> e.status == Present)
  {
    var f := NumericFact(relation, 68.0, Fahrenheit, 1.0, ["temperature"]);
    var d := Decimal(false, "20", "");
    TwentyCelsius(cs);
    NoDenyingLetters();
    hide ValueOf, Valid, AsciiClasses, IsEvidence, Measurement, NoDigit;
    NothingDenied(f, SoleReport(cs, "temperature", d, Some(Celsius)));
    hide Denied;
    if IsEvidence(f, SoleReport(cs, "temperature", d, Some(Celsius)), e) {
      OtherScaleGraded(cs, f, d, e);
    }
  }

  // ----- a flat denial -----

  /** No marker is empty, and every comparison phrase is longer than "not". */
  lemma MarkerLength(m: nat)
    requires m < |DENY_MARKERS|
    ensures DENY_MARKERS[m] != ""
  {
  }

  lemma ComparisonLength(k: nat)
    requires k < |COMPARISONS|
    ensures |COMPARISONS[k]| > 3
  {
  }

  /** Nothing follows a marker at the end of the text, so it introduces no bound. */
  lemma LastIntroducesNothing(cs: Chars, text: string, marker: string, p: nat)
    requires p + |marker| == |text|
    ensures !Introduces(cs, text, marker, p)
  {
    forall k | 0 <= k < |COMPARISONS|
      ensures !PhraseAt(cs, text, COMPARISONS[k], |text|)
      ensures marker in {"no", "not"} ==> !PhraseAt(cs, text, COMPARISONS[k], p)
    {
      ComparisonLength(k);
    }
    assert SpaceAhead(cs, text, |text|) == |text|;
  }

  /** Such as "humidity is unavailable": a fact whose anchor is said to be any of the markers is
      contradicted, whatever numbers the answer gives. */
  lemma FlatDenialContradicts(f: NumericFact, a: Answer, m: nat, e: Evidence)
    requires AsciiClasses(a.cs) && f.anchors != [] && f.anchors[0] != "" && m < |DENY_MARKERS|
    requires a.text == f.anchors[0] + " is " + DENY_MARKERS[m] && IsEvidence(f, a, e)
    ensures e.status == Contradicted
  {
    MarkerLength(m);
    SaidOfAnchor(a.cs, f.anchors, DENY_MARKERS[m], a.text);
    hide OccursAt, Introduces, NearAnchor, Covered, Conflict, Wrong, Mentioned;
    MarkerDenies(a.cs, a.text, f.anchors, m, |f.anchors[0]| + 4);
  }

  lemma MarkerDenies(cs: Chars, text: string, anchors: seq<string>, m: nat, p: nat)
    requires m < |DENY_MARKERS| && p < |text| && OccursAt(cs, text, DENY_MARKERS[m], p)
    requires NearAnchor(cs, text, anchors, p) && !Introduces(cs, text, DENY_MARKERS[m], p)
    ensures Denies(cs, text, SalientSpans(cs, text, anchors))
  {
    DeniesNearAnchor(cs, text, anchors);
  }

  lemma SaidOfAnchor(cs: Chars, anchors: seq<string>, marker: string, text: string)
    requires AsciiClasses(cs) && anchors != [] && anchors[0] != "" && marker != ""
    requires text == anchors[0] + " is " + marker
    ensures |anchors[0]| + 4 < |text| && OccursAt(cs, text, marker, |anchors[0]| + 4)
    ensures NearAnchor(cs, text, anchors, |anchors[0]| + 4) && !Introduces(cs, text, marker, |anchors[0]| + 4)
  {
    var w := anchors[0];
    OccursThere(cs, "", w, " is " + marker);
    assert "" + w + (" is " + marker) == text;
    EndsInMarker(cs, w + " is ", marker);
    LastIntroducesNothing(cs, text, marker, |w| + 4);
    hide OccursAt, Introduces;
  }

  lemma EndsInMarker(cs: Chars, lead: string, marker: string)
    requires AsciiClasses(cs) && marker != "" && lead != "" && lead[|lead| - 1] == ' '
    ensures OccursAt(cs, lead + marker, marker, |lead|)
  {
    assert (lead + marker)[|lead|..] == marker && (lead + marker)[|lead| - 1] == ' ';
  }
}
