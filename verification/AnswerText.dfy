/** Answers whose numbers are those of their text: each candidate is a numeral, with its unit and
    the words before it, at its place. */
module AnswerText {
  import opened Comparatives
  import opened Decimals
  import opened NumberGrading
  import opened Spans
  import opened Wrappers

  /** How a unit is spelled after a number. */
  function Surface(unit: Option<Unit>): string {
    match unit
    case None => ""
    case Some(Celsius) => " c"
    case Some(Fahrenheit) => " f"
    case Some(Percent) => " %"
    case Some(Degrees) => " degrees"
  }

  function Measurement(d: Decimal, unit: Option<Unit>): string {
    Spelled(d) + Surface(unit)
  }

  /** The candidate is the numeral d, with its unit, at its place in the text, and what it says
      of the words before it is what those words say. */
  predicate Stands(cs: Chars, text: string, c: Candidate, d: Decimal) {
    && Valid(d) && c.value == ValueOf(d)
    && MatchesAt(text, Measurement(d, c.unit), c.start)
    && c.op == ComparativeAt(cs, text, c.start)
    && c.temporal == TemporalAt(cs, text, c.start)
  }

  /** Position p is in the numeral d of the candidate. */
  predicate InNumeral(c: Candidate, d: Decimal, p: nat) {
    c.start <= p < c.start + |Spelled(d)|
  }

  /** The candidates are the given numerals: each stands where it starts, one after another
      without overlapping, and every digit of the text belongs to one. */
  ghost predicate ReadAs(a: Answer, ds: seq<Decimal>) {
    && |ds| == |a.found|
    && (forall i :: 0 <= i < |ds| ==> Stands(a.cs, a.text, a.found[i], ds[i]))
    && (forall i, j :: 0 <= i < j < |ds| ==>
          a.found[i].start + |Measurement(ds[i], a.found[i].unit)| <= a.found[j].start)
    && (forall p :: 0 <= p < |a.text| && IsDigit(a.text[p]) ==>
          exists i :: 0 <= i < |ds| && InNumeral(a.found[i], ds[i], p))
  }

  /** The numbers found are those in the text. */
  ghost predicate Readable(a: Answer) {
    exists ds :: ReadAs(a, ds)
  }

  lemma PartAt(a: string, m: string, b: string)
    ensures (a + m + b)[|a|..|a| + |m|] == m
  {
  }

  /** An anchor between spaces, or at the beginning, occurs there. */
  lemma OccursThere(cs: Chars, a: string, w: string, b: string)
    requires w != "" && AsciiClasses(cs)
    requires a == "" || a[|a| - 1] == ' '
    requires b != "" && b[0] == ' '
    ensures OccursAt(cs, a + w + b, w, |a|)
  {
    PartAt(a, w, b);
    var text := a + w + b;
    assert a != "" ==> text[|a| - 1] == a[|a| - 1];
    assert text[|a| + |w|] == b[0];
  }

  /** A single word does not occur inside a longer one. */
  lemma NotInsideAWord(cs: Chars, text: string, w: string, p: nat)
    requires AsciiClasses(cs) && SingleWord(cs, w)
    requires (0 < p <= |text| && Letter(text[p - 1])) || (p + |w| < |text| && Letter(text[p + |w|]))
    ensures !OccursAt(cs, text, w, p)
  {
  }

  predicate NoDigit(s: string) {
    forall i :: 0 <= i < |s| ==> !IsDigit(s[i])
  }

  lemma SurfaceNoDigit(unit: Option<Unit>)
    ensures NoDigit(Surface(unit))
  {
  }
}
