/** Where a fact's anchor terms occur in an answer, and the merged windows around them. */
module Spans {
  import opened Sequences

  const SALIENT_WINDOW := 40

  /** Character classes of the text: what `str.isalnum`, `str.isalpha` and `str.isspace` and the
      regular expression class `\w` accept. */
  datatype Chars = Chars(alnum: char -> bool, alpha: char -> bool, space: char -> bool, word: char -> bool)

  predicate Letter(c: char) {
    'a' <= c <= 'z'
  }

  predicate Letters(s: string) {
    forall i :: 0 <= i < |s| ==> Letter(s[i])
  }

  /** How the classes treat the space and the small letters. */
  ghost predicate AsciiClasses(cs: Chars) {
    && cs.space(' ') && !cs.alpha(' ') && !cs.word(' ')
    && forall c: char :: Letter(c) ==> cs.alpha(c) && cs.word(c) && !cs.space(c)
  }

  datatype Span = Span(start: int, end: int)

  // ----- occurrences -----

  predicate MatchesAt(text: string, term: string, p: nat) {
    p + |term| <= |text| && text[p..p + |term|] == term
  }

  /** A word boundary on both sides of `text[p..p + n]`. */
  predicate WholeWord(cs: Chars, text: string, p: nat, n: nat)
    requires p + n <= |text|
  {
    && (p == 0 || !cs.word(text[p - 1]))
    && (p + n == |text| || !cs.word(text[p + n]))
  }

  predicate SingleWord(cs: Chars, term: string) {
    ' ' !in term && forall i :: 0 <= i < |term| ==> cs.alnum(term[i])
  }

  predicate OccursAt(cs: Chars, text: string, term: string, p: nat) {
    && term != ""
    && MatchesAt(text, term, p)
    && (SingleWord(cs, term) ==> WholeWord(cs, text, p, |term|))
  }

  /** All places below n where the term occurs, in order. */
  function OccurrencesBelow(cs: Chars, text: string, term: string, n: nat): seq<nat> {
    if n == 0 then []
    else OccurrencesBelow(cs, text, term, n - 1) + if OccursAt(cs, text, term, n - 1) then [n - 1] else []
  }

  function TermOccurrences(cs: Chars, text: string, term: string): seq<nat> {
    OccurrencesBelow(cs, text, term, |text|)
  }

  lemma {:induction false} OccurrencesAre(cs: Chars, text: string, term: string, n: nat)
    ensures forall p :: p in OccurrencesBelow(cs, text, term, n) <==> 0 <= p < n && OccursAt(cs, text, term, p)
  {
    if n > 0 {
      OccurrencesAre(cs, text, term, n - 1);
    }
  }

  /** `text.find(term, from)`, with |text| for not found. */
  method Find(text: string, term: string, from: nat) returns (idx: nat)
    requires term != "" && from <= |text|
    ensures from <= idx <= |text| && (idx < |text| ==> MatchesAt(text, term, idx))
    ensures forall p :: from <= p < idx ==> !MatchesAt(text, term, p)
  {
    idx := from;
    while idx < |text| && !MatchesAt(text, term, idx)
      invariant from <= idx <= |text|
      invariant forall p :: from <= p < idx ==> !MatchesAt(text, term, p)
    {
      idx := idx + 1;
    }
  }

  /** The search advances by one character after each hit, so overlapping occurrences of a
      phrase are all found. */
  method Occurrences(cs: Chars, text: string, term: string) returns (starts: seq<nat>)
    requires !SingleWord(cs, term)
    ensures starts == TermOccurrences(cs, text, term)
  {
    starts := [];
    var start := 0;
    while true
      invariant start <= |text| && starts == OccurrencesBelow(cs, text, term, start)
      decreases |text| - start
    {
      var idx := Find(text, term, start);
      SkipMisses(cs, text, term, start, idx);
      if idx == |text| {
        return;
      }
      starts := starts + [idx];
      start := idx + 1;
    }
  }

  lemma {:induction false} SkipMisses(cs: Chars, text: string, term: string, from: nat, to: nat)
    requires from <= to
    requires forall p :: from <= p < to ==> !MatchesAt(text, term, p)
    ensures OccurrencesBelow(cs, text, term, to) == OccurrencesBelow(cs, text, term, from)
  {
    if from < to {
      SkipMisses(cs, text, term, from, to - 1);
    }
  }

  /** `_term_matches`: the term appears, as a whole word if it is a single one. */
  predicate TermMatches(cs: Chars, text: string, term: string) {
    exists p: nat :: p < |text| && OccursAt(cs, text, term, p)
  }

  // ----- windows -----

  function Window(p: nat, n: nat): Span {
    Span(if p - SALIENT_WINDOW > 0 then p - SALIENT_WINDOW else 0, p + n + SALIENT_WINDOW)
  }

  function WindowsOf(starts: seq<nat>, n: nat): seq<Span> {
    seq(|starts|, i requires 0 <= i < |starts| => Window(starts[i], n))
  }

  function Windows(cs: Chars, text: string, terms: seq<string>): seq<Span> {
    if terms == [] then []
    else
      var last := terms[|terms| - 1];
      Windows(cs, text, terms[..|terms| - 1]) + WindowsOf(TermOccurrences(cs, text, last), |last|)
  }

  predicate Inside(spans: seq<Span>, x: int) {
    exists i :: 0 <= i < |spans| && spans[i].start <= x < spans[i].end
  }

  /** `_near_anchor`: the offset lies in the window of some occurrence of some anchor. */
  predicate NearAnchor(cs: Chars, text: string, anchors: seq<string>, x: int) {
    exists t, p: nat :: 0 <= t < |anchors| && p < |text| && OccursAt(cs, text, anchors[t], p)
      && p - SALIENT_WINDOW <= x < p + |anchors[t]| + SALIENT_WINDOW
  }

  lemma {:induction false} WindowsAreNear(cs: Chars, text: string, terms: seq<string>, x: int)
    requires x >= 0
    ensures Inside(Windows(cs, text, terms), x) <==> NearAnchor(cs, text, terms, x)
    ensures forall i :: 0 <= i < |Windows(cs, text, terms)| ==>
      0 <= Windows(cs, text, terms)[i].start < Windows(cs, text, terms)[i].end
  {
    if terms != [] {
      var before, last := terms[..|terms| - 1], terms[|terms| - 1];
      var starts := TermOccurrences(cs, text, last);
      var a, b := Windows(cs, text, before), WindowsOf(starts, |last|);
      WindowsAreNear(cs, text, before, x);
      OccurrencesAre(cs, text, last, |text|);
      InsideAppend(a, b, x);
      NearAnchorAppend(cs, text, before, last, x);
      assert terms == before + [last];
      if Inside(b, x) {
        var i :| 0 <= i < |b| && b[i].start <= x < b[i].end;
        assert starts[i] in starts;
      }
      if p: nat :| p < |text| && OccursAt(cs, text, last, p) && p - SALIENT_WINDOW <= x < p + |last| + SALIENT_WINDOW {
        assert p in starts;
        var i :| 0 <= i < |starts| && starts[i] == p;
        assert b[i] == Window(p, |last|);
      }
    }
  }

  lemma InsideAppend(a: seq<Span>, b: seq<Span>, x: int)
    ensures Inside(a + b, x) <==> Inside(a, x) || Inside(b, x)
  {
    if i :| 0 <= i < |a| && a[i].start <= x < a[i].end {
      assert (a + b)[i] == a[i];
    }
    if i :| 0 <= i < |b| && b[i].start <= x < b[i].end {
      assert (a + b)[|a| + i] == b[i];
    }
    if i :| 0 <= i < |a + b| && (a + b)[i].start <= x < (a + b)[i].end {
      if i >= |a| {
        assert (a + b)[i] == b[i - |a|];
      }
    }
  }

  lemma NearAnchorAppend(cs: Chars, text: string, before: seq<string>, last: string, x: int)
    ensures NearAnchor(cs, text, before + [last], x) <==>
      NearAnchor(cs, text, before, x)
      || exists p: nat :: p < |text| && OccursAt(cs, text, last, p)
           && p - SALIENT_WINDOW <= x < p + |last| + SALIENT_WINDOW
  {
    var all := before + [last];
    if NearAnchor(cs, text, before, x) {
      var t, p: nat :| (
        0 <= t < |before| && p < |text| && OccursAt(cs, text, before[t], p)
        && p - SALIENT_WINDOW <= x < p + |before[t]| + SALIENT_WINDOW);
      assert all[t] == before[t];
    }
    assert all[|before|] == last;
  }

  // ----- sorting -----

  predicate AtMost(a: Span, b: Span) {
    a.start < b.start || (a.start == b.start && a.end <= b.end)
  }

  ghost predicate SortedSpans(spans: seq<Span>) {
    forall i, j :: 0 <= i < j < |spans| ==> spans[i].start <= spans[j].start
  }

  lemma SpansTotallyOrdered()
    ensures TotalOrder(AtMost)
  {
  }

  lemma SortIsSorted(spans: seq<Span>)
    ensures SortedSpans(SortBy(AtMost, spans)) && multiset(SortBy(AtMost, spans)) == multiset(spans)
  {
    SpansTotallyOrdered();
    SortOrders(AtMost, spans);
    hide SortBy, TotalOrder;
  }

  // ----- merging -----

  /** Extends the last merged span, or starts a new one. */
  function MergeInto(merged: seq<Span>, x: Span): seq<Span> {
    if merged == [] then [x]
    else
      var last := merged[|merged| - 1];
      if x.start <= last.end
      then if x.end > last.end then merged[|merged| - 1 := Span(last.start, x.end)] else merged
      else merged + [x]
  }

  function Merge(spans: seq<Span>): seq<Span> {
    if spans == [] then [] else MergeInto(Merge(spans[..|spans| - 1]), spans[|spans| - 1])
  }

  function SalientSpans(cs: Chars, text: string, terms: seq<string>): seq<Span> {
    Merge(SortBy(AtMost, Windows(cs, text, terms)))
  }

  method CollectWindows(cs: Chars, text: string, terms: seq<string>) returns (spans: seq<Span>)
    ensures spans == Windows(cs, text, terms)
  {
    hide TermOccurrences, WindowsOf;
    spans := [];
    for i := 0 to |terms|
      invariant spans == Windows(cs, text, terms[..i])
    {
      assert terms[..i + 1][..i] == terms[..i];
      spans := spans + WindowsOf(TermOccurrences(cs, text, terms[i]), |terms[i]|);
    }
    assert terms[..|terms|] == terms;
  }

  /** Merges sorted spans, extending the last merged one in place. */
  method MergeSorted(spans: seq<Span>) returns (merged: seq<Span>)
    requires spans != []
    ensures merged == Merge(spans)
  {
    merged := [spans[0]];
    assert spans[..1][..0] == [];
    for i := 1 to |spans|
      invariant merged != [] && merged == Merge(spans[..i])
    {
      assert spans[..i + 1][..i] == spans[..i];
      var x, last := spans[i], merged[|merged| - 1];
      if x.start <= last.end {
        if x.end > last.end {
          merged := merged[|merged| - 1 := Span(last.start, x.end)];
        }
      } else {
        merged := merged + [x];
      }
    }
    assert spans[..|spans|] == spans;
  }

  /** The code's steps: collect the windows, sort them, merge them. */
  method ComputeSalientSpans(cs: Chars, text: string, terms: seq<string>) returns (merged: seq<Span>)
    ensures merged == SalientSpans(cs, text, terms)
  {
    hide SortBy;
    var spans := CollectWindows(cs, text, terms);
    SortIsSorted(spans);
    assert |SortBy(AtMost, spans)| == |multiset(SortBy(AtMost, spans))| == |multiset(spans)|;
    if spans == [] {
      return [];
    }
    merged := MergeSorted(SortBy(AtMost, spans));
  }

  /** In order, with a gap between any two. */
  ghost predicate Separated(spans: seq<Span>) {
    && (forall i :: 0 <= i < |spans| ==> spans[i].start < spans[i].end)
    && (forall i, j :: 0 <= i < j < |spans| ==> spans[i].end < spans[j].start)
  }

  lemma MergeIntoStep(merged: seq<Span>, x: Span)
    requires Separated(merged) && x.start < x.end
    requires merged != [] ==> merged[|merged| - 1].start <= x.start
    ensures var r := MergeInto(merged, x);
      Separated(r) && r != [] && r[|r| - 1].start <= x.start
      && forall y :: Inside(r, y) <==> Inside(merged, y) || x.start <= y < x.end
  {
    var r := MergeInto(merged, x);
    if merged != [] {
      var n := |merged| - 1;
      var init, last := merged[..n], merged[n];
      assert merged == init + [last];
      forall y
        ensures Inside(r, y) <==> Inside(merged, y) || x.start <= y < x.end
      {
        InsideAppend(init, [last], y);
        One(last, y);
        One(x, y);
        if x.start > last.end {
          InsideAppend(merged, [x], y);
        } else if x.end > last.end {
          var wide := Span(last.start, x.end);
          assert r == init + [wide];
          InsideAppend(init, [wide], y);
          One(wide, y);
        }
      }
    } else {
      forall y
        ensures Inside(r, y) <==> x.start <= y < x.end
      {
        One(x, y);
      }
    }
  }

  lemma One(x: Span, y: int)
    ensures Inside([x], y) <==> x.start <= y < x.end
  {
    assert [x][0] == x;
  }

  lemma {:induction false} MergeCovers(spans: seq<Span>)
    requires SortedSpans(spans)
    requires forall i :: 0 <= i < |spans| ==> spans[i].start < spans[i].end
    ensures Separated(Merge(spans))
    ensures forall y :: Inside(Merge(spans), y) <==> Inside(spans, y)
    ensures spans != [] ==> Merge(spans) != [] && Merge(spans)[|Merge(spans)| - 1].start <= spans[|spans| - 1].start
  {
    if spans != [] {
      var init, x := spans[..|spans| - 1], spans[|spans| - 1];
      MergeCovers(init);
      MergeIntoStep(Merge(init), x);
      assert spans == init + [x];
      forall y
        ensures Inside(Merge(spans), y) <==> Inside(spans, y)
      {
        InsideAppend(init, [x], y);
        One(x, y);
      }
    }
  }

  lemma SameElementsInside(a: seq<Span>, b: seq<Span>, y: int)
    requires multiset(a) == multiset(b) && Inside(a, y)
    ensures Inside(b, y)
  {
    var i :| 0 <= i < |a| && a[i].start <= y < a[i].end;
    assert a[i] in multiset(b);
    var j :| 0 <= j < |b| && b[j] == a[i];
  }

  /** Salient spans come out in order with gaps between them, and an offset lies in one of them
      exactly when it is near an anchor: the two tests used in grading agree everywhere. */
  lemma SpansAreNearAnchor(cs: Chars, text: string, terms: seq<string>)
    ensures Separated(SalientSpans(cs, text, terms))
    ensures forall x :: x >= 0 ==> (Inside(SalientSpans(cs, text, terms), x) <==> NearAnchor(cs, text, terms, x))
  {
    var windows := Windows(cs, text, terms);
    WindowsAreNear(cs, text, terms, 0);
    SortIsSorted(windows);
    var sorted := SortBy(AtMost, windows);
    forall i | 0 <= i < |sorted|
      ensures sorted[i].start < sorted[i].end
    {
      assert sorted[i] in multiset(windows);
    }
    MergeCovers(sorted);
    forall x | x >= 0
      ensures Inside(SalientSpans(cs, text, terms), x) <==> NearAnchor(cs, text, terms, x)
    {
      WindowsAreNear(cs, text, terms, x);
      if Inside(windows, x) {
        SameElementsInside(windows, sorted, x);
      }
      if Inside(sorted, x) {
        SameElementsInside(sorted, windows, x);
      }
    }
  }

  /** There are salient spans exactly when some term appears in the text. */
  lemma SpansWhenMentioned(cs: Chars, text: string, terms: seq<string>)
    ensures SalientSpans(cs, text, terms) != [] <==> exists t :: 0 <= t < |terms| && TermMatches(cs, text, terms[t])
  {
    SpansAreNearAnchor(cs, text, terms);
    var spans := SalientSpans(cs, text, terms);
    if t :| 0 <= t < |terms| && TermMatches(cs, text, terms[t]) {
      var p: nat :| p < |text| && OccursAt(cs, text, terms[t], p);
      assert NearAnchor(cs, text, terms, p);
      assert Inside(spans, p);
    }
    if spans != [] {
      var windows := Windows(cs, text, terms);
      SortIsSorted(windows);
      assert windows != [];
      WindowsAreNear(cs, text, terms, 0);
      WindowsAreNear(cs, text, terms, windows[0].start);
      assert Inside(windows, windows[0].start);
    }
  }
}
