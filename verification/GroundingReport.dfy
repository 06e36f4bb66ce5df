/** Grading a whole answer: normalising the facts, failing closed, and the aggregate verdict. */
module GroundingReport {
  import opened Decimals
  import opened DenyMarkers
  import opened NumberGrading
  import opened Spans

  const MAX_FACTS := 50

  /** Character classes, text normalisation and number extraction. */
  datatype Lexer = Lexer(cs: Chars, norm: string -> string, found: string -> seq<Candidate>)

  datatype Fact =
    | StringFact(key: string, value: string, aliases: seq<string>)
    | NumberOrRelation(key: string, relation: bool, number: real, unit: Unit, tolerance: real, aliases: seq<string>)

  /** An entry of the expected facts: one that parses, or one that does not, with its best-effort key. */
  datatype Raw = Parsed(fact: Fact) | Malformed(key: string)

  // ----- terms -----

  function NonEmpty(terms: seq<string>): seq<string> {
    if terms == [] then []
    else NonEmpty(terms[..|terms| - 1]) + if terms[|terms| - 1] == "" then [] else [terms[|terms| - 1]]
  }

  function Normed(l: Lexer, texts: seq<string>): seq<string> {
    NonEmpty(seq(|texts|, i requires 0 <= i < |texts| => l.norm(texts[i])))
  }

  /** Only the value and the aliases of a string fact count as reporting it, never its key. */
  function SearchTerms(l: Lexer, f: Fact): seq<string>
    requires f.StringFact?
  {
    Normed(l, (if f.value == "" then [] else [f.value]) + f.aliases)
  }

  function ContradictionTerms(l: Lexer, f: Fact): seq<string>
    requires f.StringFact?
  {
    Normed(l, (if f.key == "" then [] else [f.key]) + (if f.value == "" then [] else [f.value]) + f.aliases)
  }

  function Numeric(l: Lexer, f: Fact): NumericFact
    requires f.NumberOrRelation?
  {
    NumericFact(f.relation, f.number, f.unit, f.tolerance, Normed(l, [f.key] + f.aliases))
  }

  function AnswerOf(l: Lexer, text: string): Answer {
    Answer(l.cs, text, l.found(text))
  }

  // ----- one fact -----

  ghost predicate FactCovered(l: Lexer, f: Fact, text: string) {
    match f
    case StringFact(_, _, _) =>
      exists t :: 0 <= t < |SearchTerms(l, f)| && TermMatches(l.cs, text, SearchTerms(l, f)[t])
    case _ => Covered(Numeric(l, f), AnswerOf(l, text))
  }

  ghost predicate FactContradicted(l: Lexer, f: Fact, text: string) {
    match f
    case StringFact(_, _, _) => Denies(l.cs, text, SalientSpans(l.cs, text, ContradictionTerms(l, f)))
    case _ =>
      var n, a := Numeric(l, f), AnswerOf(l, text);
      Denied(n, a) || (Mentioned(n, a) && Conflict(n, a)) || Wrong(n, a)
  }

  method GradeFact(l: Lexer, f: Fact, text: string) returns (e: Evidence)
    ensures e.coverage <==> FactCovered(l, f, text)
    ensures e.contradicted <==> FactContradicted(l, f, text)
    ensures e == Verdict(e.coverage, e.contradicted) && IsEvidenceFor(l, f, text, e)
  {
    hide Denies, SalientSpans, Denied, Covered, Conflict, Wrong;
    match f {
      case StringFact(_, _, _) =>
        var terms := SearchTerms(l, f);
        var coverage := false;
        for i := 0 to |terms|
          invariant !coverage && forall t :: 0 <= t < i ==> !TermMatches(l.cs, text, terms[t])
        {
          if TermMatches(l.cs, text, terms[i]) {
            coverage := true;
            break;
          }
        }
        var spans := ComputeSalientSpans(l.cs, text, ContradictionTerms(l, f));
        var contradicted := HasDenyMarker(l.cs, text, spans);
        e := Verdict(coverage, contradicted);
      case NumberOrRelation(_, _, _, _, _, _) =>
        e := GradeNumeric(Numeric(l, f), AnswerOf(l, text));
    }
  }

  // ----- caps -----

  function Cut(s: string, n: nat): string {
    if |s| > n then s[..n] else s
  }

  predicate TooLong(f: Fact, n: int) {
    n > 0 && (
      |f.key| > n || (exists i :: 0 <= i < |f.aliases| && |f.aliases[i]| > n)
      || (f.StringFact? && |f.value| > n))
  }

  /** Every string field cut to n characters; zero or less turns the cap off. */
  function Clamped(f: Fact, n: int): Fact {
    if n <= 0 then f
    else
      var aliases := seq(|f.aliases|, i requires 0 <= i < |f.aliases| => Cut(f.aliases[i], n));
      match f
      case StringFact(key, value, _) => StringFact(Cut(key, n), Cut(value, n), aliases)
      case NumberOrRelation(key, _, _, _, _, _) => f.(key := Cut(key, n), aliases := aliases)
  }

  /** A fact is reported as cut exactly if cutting changes it. */
  lemma ClampedUnlessTooLong(f: Fact, n: int)
    ensures TooLong(f, n) <==> Clamped(f, n) != f
  {
    if n > 0 {
      var cut := Clamped(f, n).aliases;
      assert forall i :: 0 <= i < |f.aliases| ==> (|f.aliases[i]| > n <==> |cut[i]| != |f.aliases[i]|);
      if !TooLong(f, n) {
        assert cut == f.aliases;
      }
    }
  }

  // ----- the report -----

  datatype Report = Report(
    overall: bool, coverage: bool, missing: seq<string>, contradicted: seq<string>,
    facts: seq<Evidence>, truncated: bool)

  /** A malformed entry becomes a fact with no affirmative content. */
  function Normalised(r: Raw): Fact {
    match r
    case Parsed(f) => f
    case Malformed(key) => StringFact(key, "", [])
  }

  function Graded(facts: seq<Raw>): seq<Fact> {
    var n := if |facts| > MAX_FACTS then MAX_FACTS else |facts|;
    seq(n, i requires 0 <= i < n => Normalised(facts[i]))
  }

  function NormAnswer(l: Lexer, answer: string, maxAnswerLen: nat): string {
    l.norm(Cut(answer, maxAnswerLen))
  }

  lemma MalformedUncovered(l: Lexer, key: string, n: int, text: string)
    ensures !FactCovered(l, Clamped(Normalised(Malformed(key)), n), text)
  {
    var f := Clamped(Normalised(Malformed(key)), n);
    assert f.value == "" && f.aliases == [];
    assert [] + f.aliases == [];
    assert Normed(l, []) == [];
  }

  /** Whether some fact among the first n was cut. */
  predicate AnyTooLong(facts: seq<Fact>, limit: int) {
    exists i :: 0 <= i < |facts| && TooLong(facts[i], limit)
  }

  /** The evidence for each fact is that of the fact as cut. */
  ghost predicate AreEvidence(l: Lexer, facts: seq<Fact>, text: string, limit: int, evidence: seq<Evidence>) {
    && |evidence| == |facts|
    && forall i :: 0 <= i < |facts| ==> IsEvidenceFor(l, Clamped(facts[i], limit), text, evidence[i])
  }

  ghost predicate IsEvidenceFor(l: Lexer, f: Fact, text: string, e: Evidence) {
    && (e.coverage <==> FactCovered(l, f, text)) && (e.contradicted <==> FactContradicted(l, f, text))
    && e.status == if e.contradicted then Contradicted else if e.coverage then Present else Missing
  }

  /** The name a fact is reported under. */
  function KeyOf(f: Fact): string {
    if f.key == "" then "?" else f.key
  }

  /** The facts with a status, by name, in order. */
  function KeysWith(facts: seq<Fact>, evidence: seq<Evidence>, status: Status): seq<string>
    requires |facts| == |evidence|
  {
    if facts == [] then []
    else
      var n := |facts| - 1;
      KeysWith(facts[..n], evidence[..n], status) + if evidence[n].status == status then [KeyOf(facts[n])] else []
  }

  function ClampedAll(facts: seq<Fact>, limit: int): seq<Fact> {
    seq(|facts|, i requires 0 <= i < |facts| => Clamped(facts[i], limit))
  }

  /** Entries that stand for no fact: how many were beyond the cap, and that there were none. */
  function Sentinels(count: nat): seq<string> {
    (if count > MAX_FACTS then ["__" + WriteDigits(count - MAX_FACTS, 1) + " fact(s) beyond MAX_FACTS=50 not graded__"]
     else [])
    + if count == 0 then ["__no facts configured to grade__"] else []
  }

  predicate Clean(evidence: seq<Evidence>) {
    forall i :: 0 <= i < |evidence| ==> evidence[i].coverage && !evidence[i].contradicted
  }

  predicate AllCovered(evidence: seq<Evidence>) {
    forall i :: 0 <= i < |evidence| ==> evidence[i].coverage
  }

  /** What a report says of the facts and the answer it grades. */
  ghost predicate IsReport(l: Lexer, facts: seq<Raw>, answer: string, maxFactLen: int, maxAnswerLen: nat, r: Report) {
    var graded := Graded(facts);
    && AreEvidence(l, graded, NormAnswer(l, answer, maxAnswerLen), maxFactLen, r.facts)
    && r.missing == KeysWith(ClampedAll(graded, maxFactLen), r.facts, Missing) + Sentinels(|facts|)
    && r.contradicted == KeysWith(ClampedAll(graded, maxFactLen), r.facts, Contradicted)
    && (r.truncated <==> |answer| > maxAnswerLen)
    && (r.overall <==> 1 <= |facts| <= MAX_FACTS && !r.truncated && !AnyTooLong(graded, maxFactLen) && Clean(r.facts))
    && (r.coverage <==> 1 <= |facts| <= MAX_FACTS && !AnyTooLong(graded, maxFactLen) && AllCovered(r.facts))
  }

  method Normalise(facts: seq<Raw>) returns (normalized: seq<Fact>)
    ensures normalized == Graded(facts)
  {
    normalized := [];
    while |normalized| < |facts| && |normalized| < MAX_FACTS
      invariant |normalized| <= |Graded(facts)| && normalized == Graded(facts)[..|normalized|]
    {
      normalized := normalized + [Normalised(facts[|normalized|])];
    }
  }

  method GradeAll(l: Lexer, facts: seq<Fact>, text: string, limit: int)
    returns (evidence: seq<Evidence>, missing: seq<string>, contradicted: seq<string>, factClamped: bool)
    ensures AreEvidence(l, facts, text, limit, evidence)
    ensures missing == KeysWith(ClampedAll(facts, limit), evidence, Missing)
    ensures contradicted == KeysWith(ClampedAll(facts, limit), evidence, Contradicted)
    ensures factClamped <==> AnyTooLong(facts, limit)
  {
    hide FactCovered, FactContradicted, Clamped, TooLong;
    evidence, missing, contradicted, factClamped := [], [], [], false;
    ghost var clamped := ClampedAll(facts, limit);
    assert clamped[..0] == [] && forall s :: KeysWith([], [], s) == [];
    hide KeysWith, IsEvidenceFor, Verdict;
    for i := 0 to |facts|
      invariant |evidence| == i
      invariant factClamped <==> exists j :: 0 <= j < i && TooLong(facts[j], limit)
      invariant forall j :: 0 <= j < i ==> IsEvidenceFor(l, Clamped(facts[j], limit), text, evidence[j])
      invariant missing == KeysWith(clamped[..i], evidence, Missing)
      invariant contradicted == KeysWith(clamped[..i], evidence, Contradicted)
    {
      factClamped := factClamped || TooLong(facts[i], limit);
      var fact := Clamped(facts[i], limit);
      var e := GradeFact(l, fact, text);
      KeysSnoc(clamped, i, evidence, e, Missing);
      KeysSnoc(clamped, i, evidence, e, Contradicted);
      evidence := evidence + [e];
      var key := if fact.key == "" then "?" else fact.key;
      if e.status == Missing {
        missing := missing + [key];
      } else if e.status == Contradicted {
        contradicted := contradicted + [key];
      }
    }
    assert clamped[..|facts|] == clamped;
  }

  lemma KeysSnoc(facts: seq<Fact>, i: nat, evidence: seq<Evidence>, e: Evidence, status: Status)
    requires i == |evidence| < |facts|
    ensures KeysWith(facts[..i + 1], evidence + [e], status)
         == KeysWith(facts[..i], evidence, status) + if e.status == status then [KeyOf(facts[i])] else []
  {
    assert facts[..i + 1][..i] == facts[..i] && (evidence + [e])[..i] == evidence;
  }

  /** Every graded fact is named under its status. */
  lemma {:induction false} KeysWithExactly(facts: seq<Fact>, evidence: seq<Evidence>, status: Status, key: string)
    requires |facts| == |evidence|
    ensures key in KeysWith(facts, evidence, status)
       <==> exists i :: 0 <= i < |facts| && evidence[i].status == status && KeyOf(facts[i]) == key
  {
    if facts != [] {
      var n := |facts| - 1;
      KeysWithExactly(facts[..n], evidence[..n], status, key);
      if i :| 0 <= i < n && evidence[..n][i].status == status && KeyOf(facts[..n][i]) == key {
        assert evidence[i].status == status && KeyOf(facts[i]) == key;
      }
    }
  }

  /** Facts are named in the order they are given. */
  lemma {:induction false} KeysInOrder(a: seq<Fact>, x: seq<Evidence>, b: seq<Fact>, y: seq<Evidence>, status: Status)
    requires |a| == |x| && |b| == |y|
    ensures KeysWith(a + b, x + y, status) == KeysWith(a, x, status) + KeysWith(b, y, status)
  {
    if b == [] {
      assert a + b == a && x + y == x;
    } else {
      var n := |b| - 1;
      KeysInOrder(a, x, b[..n], y[..n], status);
      assert (a + b)[..|a| + n] == a + b[..n] && (x + y)[..|a| + n] == x + y[..n];
    }
  }

  /** Every graded fact is named once: as missing, as contradicted, or as present. */
  lemma {:induction false} KeysPartition(facts: seq<Fact>, evidence: seq<Evidence>)
    requires |facts| == |evidence|
    ensures |KeysWith(facts, evidence, Missing)| + |KeysWith(facts, evidence, Contradicted)|
            + |KeysWith(facts, evidence, Present)| == |facts|
  {
    if facts != [] {
      KeysPartition(facts[..|facts| - 1], evidence[..|facts| - 1]);
    }
  }

  /** Nothing is named missing or contradicted exactly if every fact is covered and not
      contradicted. */
  lemma NothingNamed(l: Lexer, facts: seq<Fact>, text: string, limit: int, evidence: seq<Evidence>)
    requires AreEvidence(l, facts, text, limit, evidence)
    ensures KeysWith(ClampedAll(facts, limit), evidence, Missing) == []
            && KeysWith(ClampedAll(facts, limit), evidence, Contradicted) == []
       <==> Clean(evidence)
  {
    hide FactCovered, FactContradicted, Clamped;
    forall i | 0 <= i < |evidence|
      ensures evidence[i].coverage && !evidence[i].contradicted <==> evidence[i].status == Present
    {
      assert IsEvidenceFor(l, Clamped(facts[i], limit), text, evidence[i]);
    }
    NobodyNamed(ClampedAll(facts, limit), evidence, Missing);
    NobodyNamed(ClampedAll(facts, limit), evidence, Contradicted);
  }

  lemma {:induction false} NobodyNamed(facts: seq<Fact>, evidence: seq<Evidence>, status: Status)
    requires |facts| == |evidence|
    ensures KeysWith(facts, evidence, status) == []
       <==> forall i :: 0 <= i < |evidence| ==> evidence[i].status != status
  {
    if facts != [] {
      NobodyNamed(facts[..|facts| - 1], evidence[..|facts| - 1], status);
    }
  }

  method GradeAnswer(l: Lexer, facts: seq<Raw>, answer: string, maxFactLen: int, maxAnswerLen: nat)
    returns (r: Report)
    ensures IsReport(l, facts, answer, maxFactLen, maxAnswerLen, r)
  {
    hide FactCovered, FactContradicted, Clamped, TooLong, Clean, AnyTooLong, WriteDigits, KeysWith, ClampedAll;
    var overflow := if |facts| > MAX_FACTS then |facts| - MAX_FACTS else 0;
    var normalized := Normalise(facts);
    var truncated := |answer| > maxAnswerLen;
    var text := NormAnswer(l, answer, maxAnswerLen);
    var evidence, missing, contradicted, factClamped := GradeAll(l, normalized, text, maxFactLen);
    NothingNamed(l, normalized, text, maxFactLen, evidence);
    if overflow > 0 {
      missing := missing + ["__" + WriteDigits(overflow, 1) + " fact(s) beyond MAX_FACTS=50 not graded__"];
    }
    if evidence == [] {
      missing := missing + ["__no facts configured to grade__"];
    }
    r := Report(
      !truncated && !factClamped && missing == [] && contradicted == [],
      evidence != [] && AllCovered(evidence) && !factClamped && overflow == 0,
      missing, contradicted, evidence, truncated);
  }

  /** A passing report: 1 to 50 facts, all well formed and uncut, the answer whole, and every
      fact covered and uncontradicted by it. Passing implies the coverage flag. */
  lemma OverallMeans(l: Lexer, facts: seq<Raw>, answer: string, maxFactLen: int, maxAnswerLen: nat, r: Report)
    requires IsReport(l, facts, answer, maxFactLen, maxAnswerLen, r)
    ensures r.overall ==> r.coverage
    ensures r.overall <==>
      1 <= |facts| <= 50 && |answer| <= maxAnswerLen
      && forall i :: 0 <= i < |facts| ==> Grounded(l, facts[i], maxFactLen, l.norm(answer))
  {
    hide FactCovered, FactContradicted, Clamped, TooLong;
    var text := NormAnswer(l, answer, maxAnswerLen);
    var graded := Graded(facts);
    forall i | 0 <= i < |graded|
      ensures !TooLong(graded[i], maxFactLen) && r.facts[i].coverage && !r.facts[i].contradicted
         <==> Grounded(l, facts[i], maxFactLen, text)
    {
      assert IsEvidenceFor(l, Clamped(graded[i], maxFactLen), text, r.facts[i]);
      if facts[i].Malformed? {
        MalformedUncovered(l, facts[i].key, maxFactLen, text);
      } else if !TooLong(graded[i], maxFactLen) {
        ClampedUnlessTooLong(graded[i], maxFactLen);
      }
    }
    if |facts| <= MAX_FACTS && |answer| <= maxAnswerLen {
      assert |graded| == |facts| && text == l.norm(answer);
      assert Clean(r.facts) && !AnyTooLong(graded, maxFactLen)
        <==> forall i :: 0 <= i < |facts| ==> Grounded(l, facts[i], maxFactLen, text);
    }
  }

  ghost predicate Grounded(l: Lexer, raw: Raw, maxFactLen: int, text: string) {
    && raw.Parsed? && !TooLong(raw.fact, maxFactLen)
    && FactCovered(l, raw.fact, text) && !FactContradicted(l, raw.fact, text)
  }
}
