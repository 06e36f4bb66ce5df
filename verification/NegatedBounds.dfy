/** Answers that bound a fact by "not higher than" its value: no denial, but misread as the
    opposite comparison. */
module NegatedBounds {
  import opened AnswerText
  import opened Comparatives
  import opened Decimals
  import opened DenyMarkers
  import opened NumberGrading
  import opened Spans
  import opened Wrappers

  lemma ComparisonAfterSpace(cs: Chars, text: string, p: nat, phrase: string)
    requires AsciiClasses(cs) && KnownComparison(phrase)
    requires phrase != "" && Letter(phrase[0]) && Letter(phrase[|phrase| - 1])
    requires p + 1 + |phrase| < |text| && text[p] == ' ' && text[p + 1 + |phrase|] == ' '
    requires text[p + 1..p + 1 + |phrase|] == phrase
    ensures ComparisonFollows(cs, text, p)
  {
    assert text[p + 1] == phrase[0] && text[p + |phrase|] == phrase[|phrase| - 1];
    assert SpaceAhead(cs, text, p + 1) == p + 1;
    assert SpaceAhead(cs, text, p) == p + 1;
    assert PhraseAt(cs, text, phrase, p + 1);
    assert exists k :: 0 <= k < |COMPARISONS| && COMPARISONS[k] == phrase;
  }

  lemma NegatedPhrase(a: string, negation: string, adjective: string, b: string)
    ensures var text, p, phrase := NegatedText(a, negation, adjective, b), |a| + 1 + |negation|, adjective + " than";
      p + 1 + |phrase| < |text| && text[p] == ' ' && text[p + 1 + |phrase|] == ' '
      && text[p + 1..p + 1 + |phrase|] == phrase
  {
    var phrase := adjective + " than";
    var head := a + " " + negation + " ";
    assert NegatedText(a, negation, adjective, b) == head + phrase + (" " + b);
    PartAt(head, phrase, " " + b);
  }

  lemma ComparisonAfterNegation(cs: Chars, a: string, negation: string, adjective: string, b: string)
    requires AsciiClasses(cs) && Letters(adjective) && adjective != "" && KnownComparison(adjective + " than")
    ensures |a| + 1 + |negation| <= |NegatedText(a, negation, adjective, b)|
    ensures ComparisonFollows(cs, NegatedText(a, negation, adjective, b), |a| + 1 + |negation|)
  {
    hide KnownComparison;
    NegatedPhrase(a, negation, adjective, b);
    var phrase := adjective + " than";
    assert phrase[0] == adjective[0] && phrase[|phrase| - 1] == 'n';
    hide NegatedText, AsciiClasses, ComparisonFollows;
    ComparisonAfterSpace(cs, NegatedText(a, negation, adjective, b), |a| + 1 + |negation|, phrase);
  }

  /** A marker that ends in the "no" or "not" in front of any "... than" comparison, such as
      "not" or "is not", is no denial; "no colder than" is no exception. */
  lemma NegationIsNoDenial(cs: Chars, spans: seq<Span>, a: string, negation: string, adjective: string, b: string)
    requires AsciiClasses(cs) && Letters(adjective) && adjective != ""
    requires KnownComparison(adjective + " than")
    ensures forall marker, q: nat | q + |marker| == |a| + 1 + |negation| ::
      !DenialAt(cs, NegatedText(a, negation, adjective, b), spans, marker, q)
  {
    hide KnownComparison;
    ComparisonAfterNegation(cs, a, negation, adjective, b);
    hide NegatedText, AsciiClasses, ComparisonFollows, OccursAt, Letters;
  }

  /** Such as "humidity is not higher than 62.5 %", read for the number in it. */
  function BoundedAnswer(cs: Chars, f: NumericFact, d: Decimal, adjective: string): Answer
    requires Valid(d) && f.anchors != []
  {
    var lead := f.anchors[0] + " is";
    var text := NegatedText(lead, "not", adjective, Measurement(d, Some(f.unit)));
    var start := NumberAfter(lead, "not", adjective);
    Answer(cs, text, [Candidate(ValueOf(d), Some(f.unit), start,
                                ComparativeAt(cs, text, start), TemporalAt(cs, text, start))])
  }

  lemma BoundedParts(w: string, adjective: string, m: string)
    ensures var text := NegatedText(w + " is", "not", adjective, m);
      text == "" + w + (" is not " + adjective + " than " + m)
      && text == (w + " is not " + adjective + " than ") + m + ""
      && |w + " is not " + adjective + " than "| == NumberAfter(w + " is", "not", adjective)
  {
  }

  lemma BoundedStands(cs: Chars, f: NumericFact, d: Decimal, adjective: string)
    requires Valid(d) && f.anchors != []
    ensures var a := BoundedAnswer(cs, f, d, adjective);
      Stands(cs, a.text, a.found[0], d)
  {
    var w, m := f.anchors[0], Measurement(d, Some(f.unit));
    BoundedParts(w, adjective, m);
    PartAt(w + " is not " + adjective + " than ", m, "");
    hide ComparativeAt, TemporalAt, NegatedText, Measurement;
  }

  lemma DigitsInTail(lead: string, s: string, surface: string, p: nat)
    requires NoDigit(lead) && NoDigit(surface) && p < |lead + (s + surface)| && IsDigit((lead + (s + surface))[p])
    ensures |lead| <= p < |lead| + |s|
  {
  }

  lemma LeadNoDigit(w: string, adjective: string)
    requires NoDigit(w) && Letters(adjective)
    ensures NoDigit(w + " is not " + adjective + " than ")
  {
    assert NoDigit(" is not ") && NoDigit(" than ") && NoDigit(adjective);
  }

  /** A text with one number, read as it stands. */
  lemma SoleNumberReadable(a: Answer, lead: string, d: Decimal)
    requires |a.found| == 1 && Stands(a.cs, a.text, a.found[0], d)
    requires a.text == lead + Measurement(d, a.found[0].unit) && a.found[0].start == |lead| && NoDigit(lead)
    ensures Readable(a)
  {
    var s, u := Spelled(d), Surface(a.found[0].unit);
    SurfaceNoDigit(a.found[0].unit);
    assert a.text == lead + (s + u);
    hide Stands, Surface, Spelled, NoDigit, IsDigit, Measurement;
    forall p | 0 <= p < |a.text| && IsDigit(a.text[p])
      ensures |lead| <= p < |lead| + |s|
    {
      DigitsInTail(lead, s, u, p);
    }
    SoleNumberRead(a, d);
  }

  lemma SoleNumberRead(a: Answer, d: Decimal)
    requires |a.found| == 1 && Stands(a.cs, a.text, a.found[0], d)
    requires forall p :: 0 <= p < |a.text| && IsDigit(a.text[p]) ==> InNumeral(a.found[0], d, p)
    ensures Readable(a)
  {
    hide Stands, Spelled, IsDigit;
    assert ReadAs(a, [d]);
  }

  lemma BoundedReadable(cs: Chars, f: NumericFact, d: Decimal, adjective: string)
    requires Valid(d) && f.anchors != [] && NoDigit(f.anchors[0]) && Letters(adjective)
    ensures Readable(BoundedAnswer(cs, f, d, adjective))
  {
    var w := f.anchors[0];
    var lead := w + " is not " + adjective + " than ";
    BoundedStands(cs, f, d, adjective);
    BoundedParts(w, adjective, Measurement(d, Some(f.unit)));
    LeadNoDigit(w, adjective);
    hide Stands, NegatedText, Measurement, NoDigit, Letters, ComparativeAt, TemporalAt, Readable;
    assert lead + Measurement(d, Some(f.unit)) + "" == lead + Measurement(d, Some(f.unit));
    SoleNumberReadable(BoundedAnswer(cs, f, d, adjective), lead, d);
  }

  lemma BoundedNear(cs: Chars, f: NumericFact, d: Decimal, adjective: string)
    requires Valid(d) && AsciiClasses(cs) && f.anchors != [] && f.anchors[0] != "" && |adjective| <= 20
    ensures var a := BoundedAnswer(cs, f, d, adjective);
      Mentioned(f, a) && Near(f, a, a.found[0])
  {
    var a, w, m := BoundedAnswer(cs, f, d, adjective), f.anchors[0], Measurement(d, Some(f.unit));
    BoundedParts(w, adjective, m);
    OccursThere(cs, "", w, " is not " + adjective + " than " + m);
    hide OccursAt, ComparativeAt, TemporalAt, NegatedText, Measurement;
    assert OccursAt(cs, a.text, w, 0);
    assert TermMatches(cs, a.text, f.anchors[0]);
  }

  /** A sole number that is an anchored comparison is no conflict, and wrong exactly if the
      comparison excludes the fact. */
  lemma SoleComparison(f: NumericFact, a: Answer)
    requires |a.found| == 1 && a.found[0].op.Some? && Near(f, a, a.found[0]) && Mentioned(f, a)
    ensures !Conflict(f, a) && (Wrong(f, a) <==> Excludes(f, a.found[0]))
  {
    hide Near, Mentioned, Excludes;
    assert !Measures(f, a, a.found[0]);
    assert WrongValue(f, a, a.found[0]) <==> Excludes(f, a.found[0]);
  }

  /** A bound at the fact's own value excludes it exactly if it is strict. */
  lemma OwnValueExcluded(f: NumericFact, c: Candidate)
    requires c.value == f.value && c.unit == Some(f.unit) && c.op.Some?
    ensures Excludes(f, c) <==> c.op == Some(Op.Less) || c.op == Some(Op.Greater)
  {
  }

  lemma ShortAdjective(adjective: string)
    requires Phrase([Token(adjective), Than]).Some?
    ensures |adjective| <= 20
  {
    assert |adjective| > 7 ==> Token(adjective) == Other(adjective);
  }

  /** A fact bounded by its own value in an answer that says "not ... than" is contradicted,
      unless the adjective is one of the six whose negation is known: "not higher than" reads
      as "higher than". */
  lemma NotHigherThanMisread(cs: Chars, f: NumericFact, d: Decimal, adjective: string, e: Evidence)
    requires Valid(d) && ValueOf(d) == f.value
    requires AsciiClasses(cs) && f.anchors != [] && f.anchors[0] != "" && NoDigit(f.anchors[0])
    requires Letters(adjective) && Phrase([Token(adjective), Than]).Some?
    requires IsEvidence(f, BoundedAnswer(cs, f, d, adjective), e)
    ensures Readable(BoundedAnswer(cs, f, d, adjective))
    ensures e.status == Contradicted
      <==> Token(adjective) !in {More, Word.Less, Warmer, Hotter, Colder, Cooler}
           || Denied(f, BoundedAnswer(cs, f, d, adjective))
  {
    var a := BoundedAnswer(cs, f, d, adjective);
    BoundedReadable(cs, f, d, adjective);
    ShortAdjective(adjective);
    BoundedNear(cs, f, d, adjective);
    NegationRead(cs, f.anchors[0] + " is", "not", adjective, Measurement(d, Some(f.unit)));
    hide Denied, Readable, Near, ComparativeAt, TemporalAt, Token, Measurement, NegatedText, Mentioned, Conflict, Wrong;
    SoleComparison(f, a);
    OwnValueExcluded(f, a.found[0]);
    hide Excludes, ReadAs, AsciiClasses, Covered;
  }
}
