/** Grading one numeric fact: units, tolerance, comparisons, conflicts and wrong values. */
module NumberGrading {
  import opened DenyMarkers
  import opened Spans
  import opened Wrappers

  datatype Unit = Celsius | Fahrenheit | Percent | Degrees
  datatype Op = Less | Greater | AtMost | AtLeast

  const EPS := 1.0 / 1000000000.0

  /** A number found in the answer: its unit if it has one, the comparison just before it if
      there is one, and whether a temporal preposition is. */
  datatype Candidate = Candidate(value: real, unit: Option<Unit>, start: nat, op: Option<Op>, temporal: bool)

  /** The normalised answer and the numbers found in it. */
  datatype Answer = Answer(cs: Chars, text: string, found: seq<Candidate>)

  /** A number fact, or a relation fact, with its normalised, non-empty anchor terms. */
  datatype NumericFact = NumericFact(relation: bool, value: real, unit: Unit, tolerance: real, anchors: seq<string>)

  // ----- units -----

  function ToUnit(value: real, unit: Option<Unit>, target: Unit): Option<real> {
    match unit
    case None => Some(value)
    case Some(u) =>
      if u == target then Some(value)
      else if u == Degrees then (if target == Celsius || target == Fahrenheit then Some(value) else None)
      else if u == Celsius && target == Fahrenheit then Some(value * 9.0 / 5.0 + 32.0)
      else if u == Fahrenheit && target == Celsius then Some((value - 32.0) * 5.0 / 9.0)
      else None
  }

  /** The two temperature conversions undo each other, and a value converts to a unit exactly
      when it is bare, in that unit, or both are temperatures with a declared target scale. */
  lemma ConversionRoundTrip(x: real, unit: Option<Unit>, target: Unit)
    ensures ToUnit(x, Some(Celsius), Fahrenheit).Some?
      && ToUnit(ToUnit(x, Some(Celsius), Fahrenheit).value, Some(Fahrenheit), Celsius) == Some(x)
    ensures ToUnit(x, unit, target).Some? <==>
      unit == None || unit == Some(target) || (unit != Some(Percent) && (target == Celsius || target == Fahrenheit))
  {
    var f := x * 9.0 / 5.0 + 32.0;
    assert (f - 32.0) * 5.0 / 9.0 == x;
  }

  // ----- what the tests mean -----

  predicate Outside(f: NumericFact, x: real) {
    x - f.value > f.tolerance + EPS || f.value - x > f.tolerance + EPS
  }

  predicate Within(f: NumericFact, c: Candidate) {
    var x := ToUnit(c.value, c.unit, f.unit);
    x.Some? && !Outside(f, x.value)
  }

  predicate Mentioned(f: NumericFact, a: Answer) {
    exists t :: 0 <= t < |f.anchors| && TermMatches(a.cs, a.text, f.anchors[t])
  }

  predicate Near(f: NumericFact, a: Answer, c: Candidate) {
    NearAnchor(a.cs, a.text, f.anchors, c.start)
  }

  predicate Holds(op: Op, x: real, threshold: real) {
    match op
    case Less => x < threshold
    case Greater => x > threshold
    case AtMost => x <= threshold
    case AtLeast => x >= threshold
  }

  /** `_incompatible_comparison`: a comparison that the fact's own value does not satisfy, or
      one in a unit that cannot be converted. */
  predicate Excludes(f: NumericFact, c: Candidate) {
    c.op.Some? && (var x := ToUnit(c.value, c.unit, f.unit); x.None? || !Holds(c.op.value, f.value, x.value))
  }

  /** A candidate that grounds the fact: no comparison, within tolerance, and anchored; a value
      with a unit needs no anchor in an answer that names none. */
  predicate Grounds(f: NumericFact, a: Answer, c: Candidate) {
    c.op == None && Within(f, c)
    && (Near(f, a, c) || (!f.relation && c.unit.Some? && !Mentioned(f, a)))
  }

  ghost predicate Covered(f: NumericFact, a: Answer) {
    (f.relation ==> Mentioned(f, a)) && exists i :: 0 <= i < |a.found| && Grounds(f, a, a.found[i])
  }

  /** An anchored, unit-qualified value, not a comparison, that converts to the fact's unit. */
  predicate Measures(f: NumericFact, a: Answer, c: Candidate) {
    c.op == None && c.unit.Some? && Near(f, a, c) && ToUnit(c.value, c.unit, f.unit).Some?
  }

  function Measured(f: NumericFact, c: Candidate): real {
    match ToUnit(c.value, c.unit, f.unit) case None => 0.0 case Some(x) => x
  }

  predicate WrongValue(f: NumericFact, a: Answer, c: Candidate) {
    Near(f, a, c) && (
      Excludes(f, c)
      || (Measures(f, a, c) && Outside(f, Measured(f, c)))
      || (c.op == None && c.unit == None && |a.found| == 1 && !c.temporal && Outside(f, c.value)))
  }

  ghost predicate Wrong(f: NumericFact, a: Answer) {
    Mentioned(f, a) && exists i :: 0 <= i < |a.found| && WrongValue(f, a, a.found[i])
  }

  // ----- rounding to nine decimals -----

  /** Rounding half to even. */
  function Nearest(y: real): int {
    var n := y.Floor;
    var d := y - n as real;
    if d < 0.5 || (d == 0.5 && n % 2 == 0) then n else n + 1
  }

  function Round9(x: real): real {
    Nearest(x * 1000000000.0) as real / 1000000000.0
  }

  /** Some measurement among the first n candidates rounds to r. */
  ghost predicate Seen(f: NumericFact, a: Answer, n: nat, r: real)
    requires n <= |a.found|
  {
    exists j :: 0 <= j < n && Measures(f, a, a.found[j]) && Round9(Measured(f, a.found[j])) == r
  }

  /** Two distinct rounded values, one of them outside the tolerance. */
  ghost predicate Conflict(f: NumericFact, a: Answer) {
    exists r, q :: Seen(f, a, |a.found|, r) && Seen(f, a, |a.found|, q) && Outside(f, r) && r != q
  }

  // ----- the code's loops -----

  method NumberCoverage(f: NumericFact, a: Answer) returns (covered: bool)
    requires !f.relation
    ensures covered <==> Covered(f, a)
  {
    var mentioned := Mentioned(f, a);
    for i := 0 to |a.found|
      invariant forall j :: 0 <= j < i ==> !Grounds(f, a, a.found[j])
    {
      var c := a.found[i];
      if c.op.Some? {
        continue;
      }
      if c.unit.Some? {
        if Within(f, c) && (!mentioned || Near(f, a, c)) {
          return true;
        }
      } else {
        if Within(f, c) && Near(f, a, c) {
          return true;
        }
      }
    }
    covered := false;
  }

  method RelationCoverage(f: NumericFact, a: Answer) returns (covered: bool)
    requires f.relation
    ensures covered <==> Covered(f, a)
  {
    if !Mentioned(f, a) {
      return false;
    }
    var spans := ComputeSalientSpans(a.cs, a.text, f.anchors);
    SpansAreNearAnchor(a.cs, a.text, f.anchors);
    for i := 0 to |a.found|
      invariant forall j :: 0 <= j < i ==> !Grounds(f, a, a.found[j])
    {
      var c := a.found[i];
      if c.op.Some? {
        continue;
      }
      var converted := ToUnit(c.value, if c.unit.Some? then c.unit else Some(f.unit), f.unit);
      if converted.None? || Outside(f, converted.value) {
        continue;
      }
      if Inside(spans, c.start) {
        return true;
      }
    }
    covered := false;
  }

  method UnitFactConflict(f: NumericFact, a: Answer) returns (conflict: bool)
    ensures conflict <==> Mentioned(f, a) && Conflict(f, a)
  {
    if !Mentioned(f, a) {
      return false;
    }
    var spans := ComputeSalientSpans(a.cs, a.text, f.anchors);
    SpansAreNearAnchor(a.cs, a.text, f.anchors);
    var seen: set<real> := {};
    var hasOutOfTol := false;
    for i := 0 to |a.found|
      invariant forall r :: r in seen <==> Seen(f, a, i, r)
      invariant hasOutOfTol <==> exists r :: r in seen && Outside(f, r)
    {
      var c := a.found[i];
      SeenStep(f, a, i);
      if c.unit.None? || !Inside(spans, c.start) || c.op.Some? {
        continue;
      }
      var converted := ToUnit(c.value, c.unit, f.unit);
      if converted.None? {
        continue;
      }
      var rounded := Round9(converted.value);
      seen := seen + {rounded};
      if Outside(f, rounded) {
        hasOutOfTol := true;
      }
    }
    conflict := |seen| >= 2 && hasOutOfTol;
    DecidesConflict(f, a, seen, hasOutOfTol);
  }

  lemma SeenStep(f: NumericFact, a: Answer, i: nat)
    requires i < |a.found|
    ensures forall r :: Seen(f, a, i + 1, r) <==>
      Seen(f, a, i, r) || (Measures(f, a, a.found[i]) && Round9(Measured(f, a.found[i])) == r)
  {
    hide Measures, Round9, Measured;
  }

  lemma OnlyOne<T>(s: set<T>, r: T)
    requires r in s && forall q :: q in s ==> q == r
    ensures |s| == 1
  {
    assert s == {r};
  }

  lemma Another<T>(s: set<T>, r: T) returns (q: T)
    requires r in s && |s| >= 2
    ensures q in s && q != r
  {
    if forall q :: q in s ==> q == r {
      OnlyOne(s, r);
    }
    q :| q in s && q != r;
  }

  lemma AtLeastTwo<T>(s: set<T>, r: T, q: T)
    requires r in s && q in s && r != q
    ensures |s| >= 2
  {
    assert |s - {r} - {q}| == |s| - 2;
  }

  lemma DecidesConflict(f: NumericFact, a: Answer, seen: set<real>, hasOutOfTol: bool)
    requires forall r :: r in seen <==> Seen(f, a, |a.found|, r)
    requires hasOutOfTol <==> exists r :: r in seen && Outside(f, r)
    ensures |seen| >= 2 && hasOutOfTol <==> Conflict(f, a)
  {
    hide Seen, Outside;
    if |seen| >= 2 && hasOutOfTol {
      var r :| r in seen && Outside(f, r);
      var q := Another(seen, r);
      assert Seen(f, a, |a.found|, r) && Seen(f, a, |a.found|, q);
    }
    if Conflict(f, a) {
      var r, q :| Seen(f, a, |a.found|, r) && Seen(f, a, |a.found|, q) && Outside(f, r) && r != q;
      AtLeastTwo(seen, r, q);
    }
  }

  method WrongValuePresent(f: NumericFact, a: Answer) returns (wrong: bool)
    ensures wrong <==> Wrong(f, a)
  {
    if !Mentioned(f, a) {
      return false;
    }
    var spans := ComputeSalientSpans(a.cs, a.text, f.anchors);
    SpansAreNearAnchor(a.cs, a.text, f.anchors);
    var sole := |a.found| == 1;
    for i := 0 to |a.found|
      invariant forall j :: 0 <= j < i ==> !WrongValue(f, a, a.found[j])
    {
      var c := a.found[i];
      if !Inside(spans, c.start) {
        continue;
      }
      if Excludes(f, c) {
        return true;
      }
      if c.op.Some? {
        continue;
      }
      var converted := c.value;
      if c.unit.None? {
        if !sole || c.temporal {
          continue;
        }
      } else {
        var x := ToUnit(c.value, c.unit, f.unit);
        if x.None? {
          continue;
        }
        converted := x.value;
      }
      if Outside(f, converted) {
        return true;
      }
    }
    wrong := false;
  }

  // ----- agreement of the two coverage tests -----

  /** Once an anchor is named, a number fact and a relation fact with the same content are
      covered by exactly the same answers, though one tests windows and the other spans. */
  lemma CoverageAgrees(f: NumericFact, a: Answer)
    requires Mentioned(f, a)
    ensures Covered(f.(relation := true), a) <==> Covered(f.(relation := false), a)
  {
    var r, n := f.(relation := true), f.(relation := false);
    assert forall i :: 0 <= i < |a.found| ==> (Grounds(r, a, a.found[i]) <==> Grounds(n, a, a.found[i]));
  }

  // ----- the verdict on one fact -----

  datatype Status = Present | Missing | Contradicted

  /** Coverage and contradiction are independent; the status gives contradiction priority. */
  datatype Evidence = Evidence(status: Status, coverage: bool, contradicted: bool)

  function Verdict(coverage: bool, contradicted: bool): Evidence {
    Evidence(if contradicted then Contradicted else if coverage then Present else Missing, coverage, contradicted)
  }

  predicate Denied(f: NumericFact, a: Answer) {
    Denies(a.cs, a.text, SalientSpans(a.cs, a.text, f.anchors))
  }

  ghost predicate IsEvidence(f: NumericFact, a: Answer, e: Evidence) {
    && (e.coverage <==> Covered(f, a))
    && (e.contradicted <==> Denied(f, a) || (Mentioned(f, a) && Conflict(f, a)) || Wrong(f, a))
    && e == Verdict(e.coverage, e.contradicted)
  }

  method GradeNumeric(f: NumericFact, a: Answer) returns (e: Evidence)
    ensures IsEvidence(f, a, e)
  {
    hide Denies, SalientSpans;
    var spans := ComputeSalientSpans(a.cs, a.text, f.anchors);
    var coverage;
    if f.relation {
      coverage := RelationCoverage(f, a);
    } else {
      coverage := NumberCoverage(f, a);
    }
    var contradicted := HasDenyMarker(a.cs, a.text, spans);
    if !contradicted {
      contradicted := UnitFactConflict(f, a);
    }
    if !contradicted {
      contradicted := WrongValuePresent(f, a);
    }
    e := Verdict(coverage, contradicted);
  }

  /** A fact graded present is grounded by a value within tolerance that is not a comparison;
      no denial stands near an anchor, no anchored measurement is out of tolerance and no
      anchored comparison excludes the fact's value. */
  lemma PresentMeans(f: NumericFact, a: Answer, e: Evidence)
    requires IsEvidence(f, a, e) && e.status == Present
    ensures !Denied(f, a)
    ensures exists i :: 0 <= i < |a.found| && a.found[i].op == None && Within(f, a.found[i])
    ensures forall i :: 0 <= i < |a.found| && Near(f, a, a.found[i]) ==>
      !(Measures(f, a, a.found[i]) && Outside(f, Measured(f, a.found[i]))) && !Excludes(f, a.found[i])
  {
    hide Denied;
    var g :| 0 <= g < |a.found| && Grounds(f, a, a.found[g]);
    forall i | 0 <= i < |a.found| && Near(f, a, a.found[i])
      ensures !(Measures(f, a, a.found[i]) && Outside(f, Measured(f, a.found[i]))) && !Excludes(f, a.found[i])
    {
      NearMeansMentioned(f, a, a.found[i]);
    }
  }

  lemma NearMeansMentioned(f: NumericFact, a: Answer, c: Candidate)
    requires Near(f, a, c)
    ensures Mentioned(f, a)
  {
    var t, p: nat :| (
      0 <= t < |f.anchors| && p < |a.text| && OccursAt(a.cs, a.text, f.anchors[t], p)
      && p - SALIENT_WINDOW <= c.start < p + |f.anchors[t]| + SALIENT_WINDOW);
    assert TermMatches(a.cs, a.text, f.anchors[t]);
  }
}
