/** Reading the comparison, if any, in the words just before a number. */
module Comparatives {
  import opened NumberGrading
  import opened Spans
  import opened Wrappers

  datatype Word =
    | Below | Under | Beneath | Above | Over
    | Less | Lower | Fewer | More | Greater | Higher | Warmer | Hotter | Colder | Cooler
    | Than | At | Most | Least | No | Not | Other(text: string)

  /** The words the phrases are made of. */
  function Token(s: string): Word {
    match |s|
    case 2 => if s == "at" then At else if s == "no" then No else Other(s)
    case 3 => if s == "not" then Not else Other(s)
    case 4 =>
      if s == "over" then Over else if s == "less" then Word.Less else if s == "more" then More
      else if s == "than" then Than else if s == "most" then Most else Other(s)
    case 5 =>
      if s == "below" then Below else if s == "under" then Under else if s == "above" then Above
      else if s == "lower" then Lower else if s == "fewer" then Fewer else if s == "least" then Least
      else Other(s)
    case 6 =>
      if s == "higher" then Higher else if s == "warmer" then Warmer else if s == "hotter" then Hotter
      else if s == "colder" then Colder else if s == "cooler" then Cooler else Other(s)
    case 7 => if s == "beneath" then Beneath else if s == "greater" then Word.Greater else Other(s)
    case _ => Other(s)
  }

  /** The comparison phrases that are known, in reading order. */
  function Phrase(words: seq<Word>): Option<Op> {
    if |words| == 1 then
      if words[0] in {Below, Under, Beneath} then Some(Op.Less)
      else if words[0] in {Above, Over} then Some(Op.Greater)
      else None
    else if |words| == 2 && words[1] == Than then
      if words[0] in {Word.Less, Lower, Fewer, Colder, Cooler} then Some(Op.Less)
      else if words[0] in {More, Word.Greater, Higher, Warmer, Hotter} then Some(Op.Greater)
      else None
    else if |words| == 2 && words[0] == At then
      if words[1] == Most then Some(AtMost) else if words[1] == Least then Some(AtLeast) else None
    else if |words| == 3 && words[0] in {No, Not} && words[2] == Than then
      if words[1] in {More, Warmer, Hotter} then Some(AtMost)
      else if words[1] in {Word.Less, Colder, Cooler} then Some(AtLeast)
      else None
    else None
  }

  /** Up to three words back from the number, the longest known phrase wins. */
  function Comparative(before: seq<Word>): Option<Op> {
    var n := |before|;
    if n >= 3 && Phrase(before[n - 3..]).Some? then Phrase(before[n - 3..])
    else if n >= 2 && Phrase(before[n - 2..]).Some? then Phrase(before[n - 2..])
    else if n >= 1 then Phrase(before[n - 1..])
    else None
  }

  // ----- walking back over characters -----

  function SpaceBack(cs: Chars, text: string, i: nat): (r: nat)
    requires i <= |text|
    ensures r <= i
  {
    if i > 0 && cs.space(text[i - 1]) then SpaceBack(cs, text, i - 1) else i
  }

  function AlphaBack(cs: Chars, text: string, i: nat): (r: nat)
    requires i <= |text|
    ensures r <= i
  {
    if i > 0 && cs.alpha(text[i - 1]) then AlphaBack(cs, text, i - 1) else i
  }

  /** Up to n words before position i, in reading order; at anything that is neither a letter
      nor white space the words are empty. */
  function WordsBefore(cs: Chars, text: string, i: nat, n: nat): seq<string>
    requires i <= |text|
  {
    if n == 0 then []
    else
      var end := SpaceBack(cs, text, i);
      var b := AlphaBack(cs, text, end);
      (if b == 0 then [] else WordsBefore(cs, text, b, n - 1)) + [text[b..end]]
  }

  function Tokens(words: seq<string>): seq<Word> {
    seq(|words|, k requires 0 <= k < |words| => Token(words[k]))
  }

  /** `_comparative_at`: the comparison in front of the number at `start`. */
  function ComparativeAt(cs: Chars, text: string, start: nat): Option<Op>
    requires start <= |text|
  {
    Comparative(Tokens(WordsBefore(cs, text, start, 3)))
  }

  predicate Temporal(word: string) {
    word in {"in", "on", "at", "since", "from", "during", "by", "for"}
  }

  /** "as of" and "as at". */
  predicate TemporalPair(first: string, second: string) {
    first == "as" && second in {"of", "at"}
  }

  /** `_temporal_preposition_before`: a preposition of time in front of the number. */
  predicate TemporalAt(cs: Chars, text: string, start: nat)
    requires start <= |text|
  {
    var words := WordsBefore(cs, text, start, 2);
    var n := |words|;
    n >= 1 && words[n - 1] != "" && (Temporal(words[n - 1]) || (n == 2 && TemporalPair(words[0], words[1])))
  }

  /** A word, with the space before it, just before a space: it begins at j and ends before
      the space at i - 1. */
  lemma WordStep(cs: Chars, text: string, a: string, w: string, b: string, n: nat, j: nat, i: nat)
    requires text == a + " " + w + " " + b && n > 0 && w != ""
    requires AsciiClasses(cs) && Letters(w)
    requires j == |a| + 1 && i == j + |w| + 1
    ensures i <= |text| && WordsBefore(cs, text, i, n) == WordsBefore(cs, text, j, n - 1) + [w]
  {
    assert text[i - 1] == ' ' && text[j - 1] == ' ';
    assert forall k :: 0 <= k < |w| ==> text[j + k] == w[k];
    assert forall k :: j <= k < i - 1 ==> text[k] == w[k - j];
    assert text[j..i - 1] == w;
    assert SpaceBack(cs, text, i - 1) == i - 1 by { assert text[i - 2] == w[|w| - 1]; }
    assert SpaceBack(cs, text, i) == i - 1;
    AlphaRun(cs, text, j, i - 1);
  }

  lemma {:induction false} AlphaRun(cs: Chars, text: string, b: nat, end: nat)
    requires b <= end <= |text| && (b == 0 || !cs.alpha(text[b - 1]))
    requires forall i :: b <= i < end ==> cs.alpha(text[i])
    ensures AlphaBack(cs, text, end) == b
  {
    if b < end {
      AlphaRun(cs, text, b, end - 1);
    }
  }

  // ----- what a negation does to a comparison -----

  /** What "not" makes of a comparison. */
  function Opposite(op: Op): Op {
    match op
    case Less => AtLeast
    case Greater => AtMost
    case AtMost => Op.Greater
    case AtLeast => Op.Less
  }

  lemma OppositeDenies(op: Op, x: real, threshold: real)
    ensures Holds(Opposite(op), x, threshold) <==> !Holds(op, x, threshold)
  {
  }

  function NegatedText(a: string, negation: string, adjective: string, b: string): string {
    a + " " + negation + " " + adjective + " than " + b
  }

  function NumberAfter(a: string, negation: string, adjective: string): nat {
    |a| + |negation| + |adjective| + 8
  }

  lemma NegatedWords(cs: Chars, a: string, negation: string, adjective: string, b: string)
    requires AsciiClasses(cs) && Letters(negation) && Letters(adjective) && negation != "" && adjective != ""
    ensures NumberAfter(a, negation, adjective) <= |NegatedText(a, negation, adjective, b)|
    ensures WordsBefore(cs, NegatedText(a, negation, adjective, b), NumberAfter(a, negation, adjective), 3)
         == [negation, adjective, "than"]
  {
    var text := NegatedText(a, negation, adjective, b);
    var i := NumberAfter(a, negation, adjective);
    NegatedParts(a, negation, adjective, b);
    hide WordsBefore, AsciiClasses, NegatedText;
    WordStep(cs, text, a + " " + negation + " " + adjective, "than", b, 3, i - 5, i);
    WordStep(cs, text, a + " " + negation, adjective, "than " + b, 2, i - 6 - |adjective|, i - 5);
    WordStep(cs, text, a, negation, adjective + " than " + b, 1, |a| + 1, i - 6 - |adjective|);
    NoWords(cs, text, |a| + 1);
  }

  lemma NegatedParts(a: string, negation: string, adjective: string, b: string)
    ensures var text := NegatedText(a, negation, adjective, b);
      text == (a + " " + negation + " " + adjective) + " " + "than" + " " + b
      && text == (a + " " + negation) + " " + adjective + " " + ("than " + b)
      && text == a + " " + negation + " " + (adjective + " than " + b)
  {
  }

  lemma NoWords(cs: Chars, text: string, i: nat)
    requires i <= |text|
    ensures WordsBefore(cs, text, i, 0) == []
  {
  }

  /** After "no" or "not", a known "... than" comparison is read as its denial exactly for six
      adjectives; "not higher than", "not lower than", "not greater than" and "not fewer than"
      are read as if the negation were absent. */
  lemma NegationRead(cs: Chars, a: string, negation: string, adjective: string, b: string)
    requires AsciiClasses(cs) && Letters(adjective)
    requires negation == "no" || negation == "not"
    requires Phrase([Token(adjective), Than]).Some?
    ensures NumberAfter(a, negation, adjective) <= |NegatedText(a, negation, adjective, b)|
    ensures ComparativeAt(cs, NegatedText(a, negation, adjective, b), NumberAfter(a, negation, adjective))
         == if Token(adjective) in {More, Word.Less, Warmer, Hotter, Colder, Cooler}
            then Some(Opposite(Phrase([Token(adjective), Than]).value))
            else Phrase([Token(adjective), Than])
  {
    NegatedWords(cs, a, negation, adjective, b);
    TokensOf(negation, adjective);
    NegatedComparative(Token(negation), Token(adjective));
    hide Token, WordsBefore, NegatedText, Comparative, Phrase, Letters;
  }

  lemma NegatedComparative(negation: Word, adjective: Word)
    requires negation in {No, Not} && Phrase([adjective, Than]).Some?
    ensures Comparative([negation, adjective, Than])
         == if adjective in {More, Word.Less, Warmer, Hotter, Colder, Cooler}
            then Some(Opposite(Phrase([adjective, Than]).value))
            else Phrase([adjective, Than])
  {
    var all := [negation, adjective, Than];
    assert all[0..] == all && all[1..] == [adjective, Than];
  }

  lemma TokensOf(negation: string, adjective: string)
    requires negation == "no" || negation == "not"
    ensures Token(negation) in {No, Not}
    ensures Tokens([negation, adjective, "than"]) == [Token(negation), Token(adjective), Than]
  {
    assert Token("than") == Than;
  }

  /** No phrase ends in a word that is not in the table. */
  lemma PhraseEnd(words: seq<Word>)
    requires words != [] && words[|words| - 1].Other?
    ensures Phrase(words) == None
  {
  }

  lemma NoComparative(before: seq<Word>)
    requires before != [] && before[|before| - 1].Other?
    ensures Comparative(before) == None
  {
    hide Phrase;
    var n := |before|;
    PhraseEnd(before[n - 1..]);
    if n >= 2 {
      PhraseEnd(before[n - 2..]);
    }
    if n >= 3 {
      PhraseEnd(before[n - 3..]);
    }
  }

  lemma IsUnknown(first: string)
    ensures Token("is") == Other("is") && !Temporal("is") && !TemporalPair(first, "is")
  {
    assert "is"[0] == 'i' && "is"[1] == 's' && |"is"| == 2;
  }

  /** Words that end in "is" are no comparison. */
  lemma EndsInIs(before: seq<string>)
    ensures Comparative(Tokens(before + ["is"])) == None
  {
    IsUnknown("");
    hide Token, Comparative;
    var tokens := Tokens(before + ["is"]);
    assert tokens[|before|] == Other("is");
    NoComparative(tokens);
  }

  /** After a word that is in no phrase, no comparison and no preposition of time is read. */
  lemma PlainAfterIs(cs: Chars, a: string, b: string)
    requires AsciiClasses(cs)
    ensures ComparativeAt(cs, a + " is " + b, |a| + 4) == None && !TemporalAt(cs, a + " is " + b, |a| + 4)
  {
    hide WordsBefore, Token, Tokens, Comparative, Temporal, TemporalPair, AsciiClasses, Letters;
    var text := a + " is " + b;
    assert text == a + " " + "is" + " " + b;
    LettersOfIs();
    WordStep(cs, text, a, "is", b, 3, |a| + 1, |a| + 4);
    WordStep(cs, text, a, "is", b, 2, |a| + 1, |a| + 4);
    EndsInIs(WordsBefore(cs, text, |a| + 1, 2));
    var before := WordsBefore(cs, text, |a| + 1, 1);
    IsUnknown(if before == [] then "" else before[0]);
  }

  lemma LettersOfIs()
    ensures Letters("is") && "is" != ""
  {
  }
}
