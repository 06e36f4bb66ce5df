/** How the words in front of a number are read, surface by surface. */
module SurfaceForms {
  import opened Comparatives
  import opened NumberGrading
  import opened Spans
  import opened Wrappers

  function Spelling(t: Word): string {
    match t
    case Below => "below" case Under => "under" case Beneath => "beneath"
    case Above => "above" case Over => "over"
    case Less => "less" case Lower => "lower" case Fewer => "fewer" case More => "more"
    case Greater => "greater" case Higher => "higher" case Warmer => "warmer" case Hotter => "hotter"
    case Colder => "colder" case Cooler => "cooler"
    case Than => "than" case At => "at" case Most => "most" case Least => "least"
    case No => "no" case Not => "not"
    case Other(text) => text
  }

  predicate Adjective(t: Word) {
    t.Less? || t.Lower? || t.Fewer? || t.More? || t.Greater? || t.Higher? || t.Warmer? || t.Hotter?
    || t.Colder? || t.Cooler?
  }

  lemma AdjectiveSpells(w: string, t: Word)
    requires Adjective(t)
    ensures Token(w) == t <==> w == Spelling(t)
  {
    match t {
      case Less => case Lower => case Fewer => case More => case Greater => case Higher =>
      case Warmer => case Hotter => case Colder => case Cooler =>
    }
  }

  /** A word is read as what it spells, and as nothing else. */
  lemma TokenSpells(w: string, t: Word)
    requires !t.Other?
    ensures Token(w) == t <==> w == Spelling(t)
  {
    if Adjective(t) {
      AdjectiveSpells(w, t);
    } else {
      match t {
        case Below => case Under => case Beneath => case Above => case Over =>
        case Than => case At => case Most => case Least => case No => case Not =>
      }
    }
  }

  /** The phrases of one word. */
  lemma OneWordPhrase(t: Word)
    ensures Phrase([t])
         == if t in {Below, Under, Beneath} then Some(Op.Less)
            else if t in {Above, Over} then Some(Op.Greater)
            else None
  {
  }

  /** The phrases of two words: an adjective and "than", "at most" and "at least". */
  lemma TwoWordPhrase(first: Word, t: Word)
    ensures Phrase([first, t])
         == if t == Than && first in {Word.Less, Lower, Fewer, Colder, Cooler} then Some(Op.Less)
            else if t == Than && first in {More, Word.Greater, Higher, Warmer, Hotter} then Some(Op.Greater)
            else if first == At && t == Most then Some(Op.AtMost)
            else if first == At && t == Least then Some(AtLeast)
            else None
  {
  }

  /** The phrases of three words, "no" or "not" and a comparison. */
  lemma ThreeWordPhrase(first: Word, second: Word, t: Word)
    ensures Phrase([first, second, t])
         == if first in {No, Not} && second in {More, Warmer, Hotter} && t == Than then Some(Op.AtMost)
            else if first in {No, Not} && second in {Word.Less, Colder, Cooler} && t == Than then Some(AtLeast)
            else None
  {
  }

  /** Of the phrases that end at the number the longest decides. */
  lemma LongestDecides(first: Word, second: Word, t: Word)
    ensures Comparative([first, second, t])
         == if Phrase([first, second, t]).Some? then Phrase([first, second, t]) else Comparative([second, t])
    ensures Comparative([second, t]) == if Phrase([second, t]).Some? then Phrase([second, t]) else Phrase([t])
    ensures Comparative([t]) == Phrase([t])
  {
    hide Phrase, Comparative;
    LastThree(first, second, t);
    LastTwo(second, t);
    LastOne(t);
  }

  lemma LastThree(first: Word, second: Word, t: Word)
    ensures Comparative([first, second, t])
         == if Phrase([first, second, t]).Some? then Phrase([first, second, t])
            else if Phrase([second, t]).Some? then Phrase([second, t]) else Phrase([t])
  {
    hide Phrase;
    var all := [first, second, t];
    assert all[0..] == all && all[1..] == [second, t] && all[2..] == [t];
  }

  lemma LastTwo(second: Word, t: Word)
    ensures Comparative([second, t]) == if Phrase([second, t]).Some? then Phrase([second, t]) else Phrase([t])
  {
    hide Phrase;
    assert [second, t][0..] == [second, t] && [second, t][1..] == [t];
  }

  lemma LastOne(t: Word)
    ensures Comparative([t]) == Phrase([t])
  {
    hide Phrase;
    assert [t][0..] == [t];
  }

  lemma TimeWords()
    ensures Temporal("in") && Temporal("on") && Temporal("at") && Temporal("since")
    ensures Temporal("from") && Temporal("during") && Temporal("by") && Temporal("for")
  {
  }

  /** A word between spaces in front of a number reads as a time exactly if it is one of the
      prepositions, or the end of "as of" or "as at". */
  lemma TemporalRead(cs: Chars, a: string, w: string, b: string)
    requires AsciiClasses(cs) && Letters(w) && w != ""
    ensures var text := a + " " + w + " " + b;
      && |WordsBefore(cs, text, |a| + 1, 1)| == 1
      && (TemporalAt(cs, text, |a| + |w| + 2) <==>
            Temporal(w) || TemporalPair(WordsBefore(cs, text, |a| + 1, 1)[0], w))
  {
    var text := a + " " + w + " " + b;
    AtMostOne(cs, text, |a| + 1);
    hide AsciiClasses, WordsBefore, Temporal, TemporalPair;
    WordStep(cs, text, a, w, b, 2, |a| + 1, |a| + |w| + 2);
    var before := WordsBefore(cs, text, |a| + 1, 1);
    assert (before + [w])[1] == w && (before + [w])[0] == before[0];
  }

  lemma AtMostOne(cs: Chars, text: string, i: nat)
    requires i <= |text|
    ensures |WordsBefore(cs, text, i, 1)| == 1
  {
  }

  lemma AsOfRead(cs: Chars, a: string, w: string, b: string)
    requires AsciiClasses(cs) && w in {"of", "at"}
    ensures TemporalAt(cs, a + " as " + w + " " + b, |a| + 7)
  {
    var text := a + " as " + w + " " + b;
    assert |w| == 2 && Letters(w) && Letters("as");
    assert text == (a + " as") + " " + w + " " + b && text == a + " " + "as" + " " + (w + " " + b);
    WordStep(cs, text, a + " as", w, b, 2, |a| + 4, |a| + 7);
    WordStep(cs, text, a, "as", w + " " + b, 1, |a| + 1, |a| + 4);
    NoWords(cs, text, |a| + 1);
    hide WordsBefore, AsciiClasses;
  }
}
