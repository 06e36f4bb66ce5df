/** Deny and hedge markers near a fact's anchors. */
module DenyMarkers {
  import opened Spans

  const DENY_MARKERS: seq<string> := [
    "not", "no", "unavailable", "unable", "can't", "cannot", "couldn't", "could not", "failed",
    "no data", "no access", "don't have", "do not have", "doesn't have", "does not have",
    "can't say", "cannot say", "can't determine", "cannot determine", "can't provide",
    "cannot provide", "isn't", "is not", "aren't", "are not", "wasn't", "was not", "won't",
    "wouldn't", "shouldn't", "didn't", "doesn't", "hasn't", "haven't", "never",
    "not available", "no result", "unable to", "refused", "denied"]

  /** The comparison phrases of more than one word. */
  const COMPARISONS: seq<string> := [
    "less than", "lower than", "fewer than", "more than", "greater than", "higher than",
    "warmer than", "hotter than", "colder than", "cooler than", "at most", "at least",
    "no more than", "no less than", "not more than", "not less than", "not warmer than",
    "not hotter than", "not colder than", "not cooler than", "no warmer than", "no hotter than",
    "no colder than", "no cooler than"]

  predicate KnownComparison(phrase: string) {
    phrase in COMPARISONS
  }

  predicate Boundary(cs: Chars, text: string, p: nat)
    requires p <= |text|
  {
    (p > 0 && cs.word(text[p - 1])) != (p < |text| && cs.word(text[p]))
  }

  /** The phrase, up to the end of a word. */
  predicate PhraseAt(cs: Chars, text: string, phrase: string, p: nat) {
    MatchesAt(text, phrase, p) && Boundary(cs, text, p + |phrase|)
  }

  function SpaceAhead(cs: Chars, text: string, i: nat): nat
    requires i <= |text|
    decreases |text| - i
  {
    if i < |text| && cs.space(text[i]) then SpaceAhead(cs, text, i + 1) else i
  }

  /** After any white space from i on, a comparison follows. */
  predicate ComparisonFollows(cs: Chars, text: string, i: nat)
    requires i <= |text|
  {
    exists k :: 0 <= k < |COMPARISONS| && PhraseAt(cs, text, COMPARISONS[k], SpaceAhead(cs, text, i))
  }

  /** At p a comparison begins that itself begins with "no" or "not". */
  predicate NegatedComparisonAt(cs: Chars, text: string, p: nat)
    requires p <= |text|
  {
    Boundary(cs, text, p)
    && exists k :: 0 <= k < |COMPARISONS| && PhraseAt(cs, text, COMPARISONS[k], p)
         && ("no " <= COMPARISONS[k] || "not " <= COMPARISONS[k])
  }

  /** A marker that introduces a bound is no denial. */
  predicate Introduces(cs: Chars, text: string, marker: string, p: nat)
    requires p + |marker| <= |text|
  {
    ComparisonFollows(cs, text, p + |marker|) || (marker in {"no", "not"} && NegatedComparisonAt(cs, text, p))
  }

  predicate DenialAt(cs: Chars, text: string, spans: seq<Span>, marker: string, p: nat) {
    OccursAt(cs, text, marker, p) && Inside(spans, p) && !Introduces(cs, text, marker, p)
  }

  /** Some marker starts inside a span and introduces no bound. */
  predicate Denies(cs: Chars, text: string, spans: seq<Span>) {
    exists m, p: nat :: 0 <= m < |DENY_MARKERS| && p < |text| && DenialAt(cs, text, spans, DENY_MARKERS[m], p)
  }

  /** A denial is a marker near an anchor that introduces no bound. */
  lemma DeniesNearAnchor(cs: Chars, text: string, anchors: seq<string>)
    ensures Denies(cs, text, SalientSpans(cs, text, anchors))
       <==> exists m, p: nat :: 0 <= m < |DENY_MARKERS| && p < |text| && OccursAt(cs, text, DENY_MARKERS[m], p)
              && NearAnchor(cs, text, anchors, p) && !Introduces(cs, text, DENY_MARKERS[m], p)
  {
    SpansAreNearAnchor(cs, text, anchors);
    hide SalientSpans, Inside, NearAnchor, Introduces, Separated;
    var spans := SalientSpans(cs, text, anchors);
    forall m, p: nat | 0 <= m < |DENY_MARKERS| && p < |text|
      ensures DenialAt(cs, text, spans, DENY_MARKERS[m], p)
         <==> OccursAt(cs, text, DENY_MARKERS[m], p) && NearAnchor(cs, text, anchors, p)
              && !Introduces(cs, text, DENY_MARKERS[m], p)
    {
    }
  }

  /** No marker overlaps itself, so its matches are all its occurrences. */
  method FindDenial(cs: Chars, text: string, spans: seq<Span>, marker: string) returns (found: bool)
    ensures found <==> exists p: nat :: p < |text| && DenialAt(cs, text, spans, marker, p)
  {
    hide Introduces, OccursAt, Inside;
    var starts := TermOccurrences(cs, text, marker);
    OccurrencesAre(cs, text, marker, |text|);
    for i := 0 to |starts|
      invariant forall j :: 0 <= j < i ==> !DenialAt(cs, text, spans, marker, starts[j])
    {
      assert starts[i] in starts;
      assert OccursAt(cs, text, marker, starts[i]);
      if DenialAt(cs, text, spans, marker, starts[i]) {
        return true;
      }
    }
    found := false;
  }

  method HasDenyMarker(cs: Chars, text: string, spans: seq<Span>) returns (denied: bool)
    ensures denied <==> Denies(cs, text, spans)
  {
    if spans == [] {
      return false;
    }
    hide DenialAt;
    for m := 0 to |DENY_MARKERS|
      invariant forall j, p: nat :: 0 <= j < m && p < |text| ==> !DenialAt(cs, text, spans, DENY_MARKERS[j], p)
    {
      var found := FindDenial(cs, text, spans, DENY_MARKERS[m]);
      if found {
        return true;
      }
    }
    denied := false;
  }
}
