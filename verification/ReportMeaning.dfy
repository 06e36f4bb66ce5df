/** What a grounding report and its parts say, in terms of the facts as given and of the text. */
module ReportMeaning {
  import opened Decimals
  import opened DenyMarkers
  import opened GroundingReport
  import opened NumberGrading
  import opened Spans

  /** The coverage flag: 1 to 50 facts, all well formed and uncut, each covered by the answer up
      to its cap, whatever contradicts them. */
  lemma CoverageMeans(l: Lexer, facts: seq<Raw>, answer: string, maxFactLen: int, maxAnswerLen: nat, r: Report)
    requires IsReport(l, facts, answer, maxFactLen, maxAnswerLen, r)
    ensures r.coverage <==>
      1 <= |facts| <= 50
      && forall i :: 0 <= i < |facts| ==>
           Affirmed(l, facts[i], maxFactLen, l.norm(if |answer| > maxAnswerLen then answer[..maxAnswerLen] else answer))
  {
    hide FactCovered, FactContradicted, Clamped, TooLong;
    var text := NormAnswer(l, answer, maxAnswerLen);
    var graded := Graded(facts);
    forall i | 0 <= i < |graded|
      ensures !TooLong(graded[i], maxFactLen) && r.facts[i].coverage <==> Affirmed(l, facts[i], maxFactLen, text)
    {
      assert IsEvidenceFor(l, Clamped(graded[i], maxFactLen), text, r.facts[i]);
      if facts[i].Malformed? {
        MalformedUncovered(l, facts[i].key, maxFactLen, text);
      } else if !TooLong(graded[i], maxFactLen) {
        ClampedUnlessTooLong(graded[i], maxFactLen);
      }
    }
    if |facts| <= 50 {
      assert |graded| == |facts|;
      assert AllCovered(r.facts) && !AnyTooLong(graded, maxFactLen)
        <==> forall i :: 0 <= i < |facts| ==> Affirmed(l, facts[i], maxFactLen, text);
    }
  }

  ghost predicate Affirmed(l: Lexer, raw: Raw, maxFactLen: int, text: string) {
    raw.Parsed? && !TooLong(raw.fact, maxFactLen) && FactCovered(l, raw.fact, text)
  }

  predicate FirstChars(part: string, whole: string, n: int) {
    part <= whole && |part| == if n < |whole| then n else |whole|
  }

  /** A positive cap cuts every text of a fact to its first characters, that many at most, and
      changes nothing else; a cap of zero or less cuts nothing. */
  lemma ClampedKeepsPrefixes(f: Fact, n: int)
    ensures n <= 0 ==> Clamped(f, n) == f
    ensures n > 0 ==>
      && FirstChars(Clamped(f, n).key, f.key, n) && |Clamped(f, n).aliases| == |f.aliases|
      && forall i :: 0 <= i < |f.aliases| ==> FirstChars(Clamped(f, n).aliases[i], f.aliases[i], n)
    ensures n > 0 && f.StringFact? ==> Clamped(f, n).StringFact? && FirstChars(Clamped(f, n).value, f.value, n)
    ensures f.NumberOrRelation? ==> Clamped(f, n) == f.(key := Clamped(f, n).key, aliases := Clamped(f, n).aliases)
  {
  }

  lemma {:induction false} NonEmptyExactly(terms: seq<string>, t: string)
    ensures t in NonEmpty(terms) <==> t in terms && t != ""
  {
    if terms != [] {
      NonEmptyExactly(terms[..|terms| - 1], t);
      assert terms == terms[..|terms| - 1] + [terms[|terms| - 1]];
    }
  }

  lemma NormedExactly(l: Lexer, texts: seq<string>, t: string)
    ensures t in Normed(l, texts) <==> t != "" && exists i :: 0 <= i < |texts| && l.norm(texts[i]) == t
  {
    var normed := seq(|texts|, i requires 0 <= i < |texts| => l.norm(texts[i]));
    NonEmptyExactly(normed, t);
    if i :| 0 <= i < |texts| && l.norm(texts[i]) == t {
      assert normed[i] in normed;
    }
  }

  /** The texts that report a string fact, and those that name it. */
  predicate Reports(f: Fact, s: string)
    requires f.StringFact?
  {
    (s == f.value && s != "") || s in f.aliases
  }

  predicate Names(f: Fact, s: string)
    requires f.StringFact?
  {
    (s == f.key && s != "") || Reports(f, s)
  }

  lemma SearchTermsAre(l: Lexer, f: Fact, t: string)
    requires f.StringFact?
    ensures t in SearchTerms(l, f) <==> t != "" && exists s :: Reports(f, s) && l.norm(s) == t
  {
    var texts := (if f.value == "" then [] else [f.value]) + f.aliases;
    NormedExactly(l, texts, t);
    assert forall s :: s in texts <==> Reports(f, s);
    if s :| Reports(f, s) && l.norm(s) == t {
      assert s in texts;
    }
  }

  lemma ContradictionTermsAre(l: Lexer, f: Fact, t: string)
    requires f.StringFact?
    ensures t in ContradictionTerms(l, f) <==> t != "" && exists s :: Names(f, s) && l.norm(s) == t
  {
    var texts := (if f.key == "" then [] else [f.key]) + (if f.value == "" then [] else [f.value]) + f.aliases;
    NormedExactly(l, texts, t);
    assert forall s :: s in texts <==> Names(f, s);
    if s :| Names(f, s) && l.norm(s) == t {
      assert s in texts;
    }
  }

  /** A string fact is covered exactly if its value or an alias stands in the answer; its key
      never covers it. */
  lemma StringCovered(l: Lexer, f: Fact, text: string)
    requires f.StringFact?
    ensures FactCovered(l, f, text)
       <==> exists s :: Reports(f, s) && l.norm(s) != "" && TermMatches(l.cs, text, l.norm(s))
  {
    hide TermMatches, SearchTerms;
    if FactCovered(l, f, text) {
      var i :| 0 <= i < |SearchTerms(l, f)| && TermMatches(l.cs, text, SearchTerms(l, f)[i]);
      SearchTermsAre(l, f, SearchTerms(l, f)[i]);
    }
    if s :| Reports(f, s) && l.norm(s) != "" && TermMatches(l.cs, text, l.norm(s)) {
      SearchTermsAre(l, f, l.norm(s));
      var i :| 0 <= i < |SearchTerms(l, f)| && SearchTerms(l, f)[i] == l.norm(s);
    }
  }

  /** The place is within 40 characters of an occurrence of one of the fact's names. */
  ghost predicate NearName(l: Lexer, f: Fact, text: string, s: string, x: int)
    requires f.StringFact?
  {
    exists p: nat :: p < |text| && OccursAt(l.cs, text, l.norm(s), p) && p - 40 <= x < p + |l.norm(s)| + 40
  }

  /** At p stands a marker that introduces no bound, near a name of the fact. */
  ghost predicate DeniedAt(l: Lexer, f: Fact, text: string, m: nat, p: nat)
    requires f.StringFact? && m < |DENY_MARKERS|
  {
    && p < |text| && OccursAt(l.cs, text, DENY_MARKERS[m], p) && !Introduces(l.cs, text, DENY_MARKERS[m], p)
    && exists s :: Names(f, s) && NearName(l, f, text, s, p)
  }

  /** A string fact is contradicted exactly if a marker that introduces no bound stands near its
      key, its value or an alias. */
  lemma StringContradicted(l: Lexer, f: Fact, text: string)
    requires f.StringFact?
    ensures FactContradicted(l, f, text) <==> exists m, p: nat :: 0 <= m < |DENY_MARKERS| && DeniedAt(l, f, text, m, p)
  {
    hide Introduces, ContradictionTerms, SalientSpans, Denies, Names, NearName, NearAnchor;
    var terms := ContradictionTerms(l, f);
    DeniesNearAnchor(l.cs, text, terms);
    forall m, p: nat | 0 <= m < |DENY_MARKERS|
      ensures DeniedAt(l, f, text, m, p)
         <==> p < |text| && OccursAt(l.cs, text, DENY_MARKERS[m], p) && NearAnchor(l.cs, text, terms, p)
              && !Introduces(l.cs, text, DENY_MARKERS[m], p)
    {
      NearSomeName(l, f, text, p);
    }
  }

  lemma NearSomeName(l: Lexer, f: Fact, text: string, x: nat)
    requires f.StringFact?
    ensures NearAnchor(l.cs, text, ContradictionTerms(l, f), x)
       <==> exists s :: Names(f, s) && NearName(l, f, text, s, x)
  {
    hide ContradictionTerms, Names;
    var terms := ContradictionTerms(l, f);
    if NearAnchor(l.cs, text, terms, x) {
      var t, p: nat :| (0 <= t < |terms| && p < |text| && OccursAt(l.cs, text, terms[t], p)
        && p - SALIENT_WINDOW <= x < p + |terms[t]| + SALIENT_WINDOW);
      ContradictionTermsAre(l, f, terms[t]);
      var s :| Names(f, s) && l.norm(s) == terms[t];
      assert NearName(l, f, text, s, x);
    }
    if s :| Names(f, s) && NearName(l, f, text, s, x) {
      var p: nat :| p < |text| && OccursAt(l.cs, text, l.norm(s), p) && p - 40 <= x < p + |l.norm(s)| + 40;
      ContradictionTermsAre(l, f, l.norm(s));
      var t :| 0 <= t < |terms| && terms[t] == l.norm(s);
    }
  }

  /** A numeric fact's evidence is that of its number, unit and tolerance, anchored at its key and
      its aliases. */
  lemma NumericEvidence(l: Lexer, f: Fact, text: string, e: Evidence)
    requires f.NumberOrRelation?
    ensures var n := Numeric(l, f);
      && (IsEvidenceFor(l, f, text, e) <==> IsEvidence(n, AnswerOf(l, text), e))
      && n.relation == f.relation && n.value == f.number && n.unit == f.unit && n.tolerance == f.tolerance
      && forall t :: t in n.anchors <==> t != "" && (l.norm(f.key) == t || exists s :: s in f.aliases && l.norm(s) == t)
  {
    hide Denied, Mentioned, Conflict, Wrong, Covered;
    var texts := [f.key] + f.aliases;
    forall t
      ensures t in Numeric(l, f).anchors
         <==> t != "" && (l.norm(f.key) == t || exists s :: s in f.aliases && l.norm(s) == t)
    {
      NormedExactly(l, texts, t);
      assert texts[0] == f.key && forall i :: 0 < i < |texts| ==> texts[i] == f.aliases[i - 1];
      if s :| s in f.aliases && l.norm(s) == t {
        assert s in texts;
      }
    }
  }

  /** The i-th graded fact, as cut, is reported under this name and is contradicted; or is neither
      contradicted nor covered. */
  ghost predicate ContradictedAs(l: Lexer, facts: seq<Fact>, limit: int, text: string, key: string, i: nat)
    requires i < |facts|
  {
    KeyOf(Clamped(facts[i], limit)) == key && FactContradicted(l, Clamped(facts[i], limit), text)
  }

  ghost predicate MissingAs(l: Lexer, facts: seq<Fact>, limit: int, text: string, key: string, i: nat)
    requires i < |facts|
  {
    var f := Clamped(facts[i], limit);
    KeyOf(f) == key && !FactContradicted(l, f, text) && !FactCovered(l, f, text)
  }

  /** A report names as contradicted exactly the contradicted facts, and as missing exactly those
      that are neither contradicted nor covered, with one more entry when facts were left ungraded
      or there were none. */
  lemma ListsMean(l: Lexer, facts: seq<Raw>, answer: string, maxFactLen: int, maxAnswerLen: nat, r: Report, key: string)
    requires IsReport(l, facts, answer, maxFactLen, maxAnswerLen, r)
    ensures var graded, text := Graded(facts), NormAnswer(l, answer, maxAnswerLen);
      && (key in r.contradicted <==>
            exists i :: 0 <= i < |graded| && ContradictedAs(l, graded, maxFactLen, text, key, i))
      && (key in r.missing <==>
            key in Sentinels(|facts|)
            || exists i :: 0 <= i < |graded| && MissingAs(l, graded, maxFactLen, text, key, i))
    ensures |Sentinels(|facts|)| == if |facts| > 50 || |facts| == 0 then 1 else 0
  {
    hide FactCovered, FactContradicted, Clamped, TooLong, KeysWith, KeyOf, WriteDigits;
    var graded, text := Graded(facts), NormAnswer(l, answer, maxAnswerLen);
    var clamped := ClampedAll(graded, maxFactLen);
    KeysWithExactly(clamped, r.facts, Contradicted, key);
    KeysWithExactly(clamped, r.facts, Missing, key);
    forall i | 0 <= i < |graded|
      ensures r.facts[i].status == Contradicted && KeyOf(clamped[i]) == key
         <==> ContradictedAs(l, graded, maxFactLen, text, key, i)
      ensures r.facts[i].status == Missing && KeyOf(clamped[i]) == key
         <==> MissingAs(l, graded, maxFactLen, text, key, i)
    {
      assert IsEvidenceFor(l, Clamped(graded[i], maxFactLen), text, r.facts[i]);
    }
    hide ContradictedAs, MissingAs, AreEvidence;
  }
}
