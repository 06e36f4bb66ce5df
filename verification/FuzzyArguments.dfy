/** The default way of comparing a tool call's arguments with the expected ones: a share of
    credit for every expected argument, over texts and other values. */
module FuzzyArguments {
  import opened ParallelCalls

  /** A text, or any other JSON value, of which only equality matters. */
  datatype Value<V(==)> = Text(text: string) | Data(data: V)

  type Args<V(==)> = map<string, Value<V>>

  /** `str.lower`, and the characters of the regular expression class `\w`. */
  datatype Reading = Reading(lower: string -> string, word: char -> bool)

  // ----- words -----

  predicate WordAt(word: char -> bool, s: string, i: nat, j: nat) {
    && i < j <= |s|
    && (forall k :: i <= k < j ==> word(s[k]))
    && (i == 0 || !word(s[i - 1])) && (j == |s| || !word(s[j]))
  }

  /** The longest runs of word characters. */
  function Words(word: char -> bool, s: string): set<string> {
    set i: nat, j: nat | i < |s| + 1 && j < |s| + 1 && WordAt(word, s, i, j) :: s[i..j]
  }

  lemma OneWord(word: char -> bool, s: string)
    requires s != "" && forall k :: 0 <= k < |s| ==> word(s[k])
    ensures Words(word, s) == {s}
  {
    assert WordAt(word, s, 0, |s|) && s[0..|s|] == s;
    forall i: nat, j: nat | WordAt(word, s, i, j)
      ensures s[i..j] == s
    {
      assert i == 0 && j == |s|;
    }
  }

  // ----- credit for one argument -----

  predicate Overlaps(a: string, b: string) {
    Substring(a, b) || Substring(b, a)
  }

  /** The share of the expected words that occur in the actual text. */
  function WordShare(expected: set<string>, actual: set<string>): real {
    if expected != {} && actual != {} then |expected * actual| as real / |expected| as real else 0.0
  }

  function TextCredit(word: char -> bool, expected: string, actual: string): real {
    if actual == "" then 0.0
    else if Overlaps(expected, actual) then 1.0
    else WordShare(Words(word, expected), Words(word, actual))
  }

  /** A missing argument reads as the empty text. */
  function Given<V>(actual: Args<V>, key: string): Value<V> {
    if key in actual then actual[key] else Text("")
  }

  function Credit<V>(t: Reading, expected: Value<V>, actual: Value<V>): real {
    if expected.Text? && actual.Text? then TextCredit(t.word, t.lower(expected.text), t.lower(actual.text))
    else if expected == actual then 1.0
    else 0.0
  }

  lemma ShareBounded(expected: set<string>, actual: set<string>)
    ensures 0.0 <= WordShare(expected, actual) <= 1.0
    ensures WordShare(expected, actual) == 1.0 <==> expected != {} && expected <= actual
    ensures WordShare(expected, actual) == 0.0 <==> expected !! actual
  {
    if expected != {} && actual != {} {
      var both := expected * actual;
      assert expected == both + (expected - actual) && |expected| == |both| + |expected - actual|;
      Fraction(|both|, |expected|);
      assert both == {} <==> |both| == 0;
    }
  }

  lemma Fraction(a: nat, b: nat)
    requires a <= b && b > 0
    ensures 0.0 <= a as real / b as real <= 1.0
    ensures (a as real / b as real == 1.0 <==> a == b) && (a as real / b as real == 0.0 <==> a == 0)
  {
    var q := a as real / b as real;
    assert q * b as real == a as real;
  }

  /** Full credit: an equal value that is no text; or a text that is given and contains, or is
      contained in, the expected one, or else has all of its words. */
  ghost predicate FullCredit<V>(t: Reading, expected: Value<V>, actual: Value<V>) {
    if expected.Text? && actual.Text? then
      var e, a := t.lower(expected.text), t.lower(actual.text);
      a != "" && (Overlaps(e, a) || (Words(t.word, e) != {} && Words(t.word, e) <= Words(t.word, a)))
    else expected == actual
  }

  /** No credit: an unequal value; or a text that is empty, or neither contains nor is contained
      in the expected one and shares no word with it. */
  ghost predicate NoCredit<V>(t: Reading, expected: Value<V>, actual: Value<V>) {
    if expected.Text? && actual.Text? then
      var e, a := t.lower(expected.text), t.lower(actual.text);
      a == "" || (!Overlaps(e, a) && Words(t.word, e) !! Words(t.word, a))
    else expected != actual
  }

  lemma CreditBounds<V>(t: Reading, expected: Value<V>, actual: Value<V>)
    ensures 0.0 <= Credit(t, expected, actual) <= 1.0
    ensures Credit(t, expected, actual) == 1.0 <==> FullCredit(t, expected, actual)
    ensures Credit(t, expected, actual) == 0.0 <==> NoCredit(t, expected, actual)
  {
    hide Words, Substring, WordShare;
    if expected.Text? && actual.Text? {
      ShareBounded(Words(t.word, t.lower(expected.text)), Words(t.word, t.lower(actual.text)));
    }
  }

  // ----- all arguments -----

  /** The credit of the given keys together. */
  ghost function CreditSum<V>(t: Reading, expected: Args<V>, actual: Args<V>, keys: set<string>): real
    requires keys <= expected.Keys
  {
    if keys == {} then 0.0
    else
      var k :| k in keys;
      Credit(t, expected[k], Given(actual, k)) + CreditSum(t, expected, actual, keys - {k})
  }

  ghost function FuzzyScore<V>(t: Reading, expected: Args<V>, actual: Args<V>): real {
    if expected == map[] || actual == map[] then 0.0
    else CreditSum(t, expected, actual, expected.Keys) / |expected| as real
  }

  /** The keys may be taken in any order. */
  lemma {:induction false} SumWithout<V>(t: Reading, expected: Args<V>, actual: Args<V>, keys: set<string>, k: string)
    requires keys <= expected.Keys && k in keys
    ensures CreditSum(t, expected, actual, keys)
         == Credit(t, expected[k], Given(actual, k)) + CreditSum(t, expected, actual, keys - {k})
    decreases |keys|
  {
    hide Credit;
    var j :| j in keys && CreditSum(t, expected, actual, keys)
      == Credit(t, expected[j], Given(actual, j)) + CreditSum(t, expected, actual, keys - {j});
    if j != k {
      SumWithout(t, expected, actual, keys - {j}, k);
      SumWithout(t, expected, actual, keys - {k}, j);
      assert keys - {j} - {k} == keys - {k} - {j};
    }
  }

  function KeySet(order: seq<string>): set<string> {
    set k | k in order
  }

  lemma SumStep<V>(t: Reading, expected: Args<V>, actual: Args<V>, order: seq<string>, i: nat)
    requires KeySet(order) == expected.Keys && i < |order|
    requires forall i, j :: 0 <= i < j < |order| ==> order[i] != order[j]
    ensures order[i] in expected && KeySet(order[..i]) <= expected.Keys && KeySet(order[..i + 1]) <= expected.Keys
    ensures CreditSum(t, expected, actual, KeySet(order[..i + 1]))
         == CreditSum(t, expected, actual, KeySet(order[..i])) + Credit(t, expected[order[i]], Given(actual, order[i]))
  {
    hide Credit, CreditSum;
    var key := order[i];
    assert key in KeySet(order);
    assert key !in order[..i] && order[..i + 1] == order[..i] + [key];
    assert forall k :: k in order[..i + 1] ==> k in order;
    assert KeySet(order[..i + 1]) <= KeySet(order);
    assert KeySet(order[..i + 1]) - {key} == KeySet(order[..i]);
    SumWithout(t, expected, actual, KeySet(order[..i + 1]), key);
  }

  lemma SumEnds<V>(t: Reading, expected: Args<V>, actual: Args<V>, order: seq<string>)
    requires KeySet(order) == expected.Keys
    ensures KeySet(order[..0]) == {} && CreditSum(t, expected, actual, {}) == 0.0
    ensures KeySet(order[..|order|]) == expected.Keys
  {
    assert order[..|order|] == order;
  }

  /** The code's loop, over the expected arguments in whatever order they stand. */
  method FuzzyMatchArgs<V(==)>(t: Reading, expected: Args<V>, order: seq<string>, actual: Args<V>)
    returns (score: real)
    requires KeySet(order) == expected.Keys && |order| == |expected|
    requires forall i, j :: 0 <= i < j < |order| ==> order[i] != order[j]
    ensures score == FuzzyScore(t, expected, actual)
  {
    hide CreditSum, KeySet, Words, Substring;
    if expected == map[] || actual == map[] {
      return 0.0;
    }
    var matches := 0.0;
    SumEnds(t, expected, actual, order);
    for i := 0 to |order|
      invariant KeySet(order[..i]) <= expected.Keys
      invariant matches == CreditSum(t, expected, actual, KeySet(order[..i]))
    {
      SumStep(t, expected, actual, order, i);
      var exp, act := expected[order[i]], Given(actual, order[i]);
      if exp.Text? && act.Text? {
        var expLower, actLower := t.lower(exp.text), t.lower(act.text);
        if actLower == "" {
          continue;
        }
        if Substring(expLower, actLower) || Substring(actLower, expLower) {
          matches := matches + 1.0;
        } else {
          var expWords, actWords := Words(t.word, expLower), Words(t.word, actLower);
          if expWords != {} && actWords != {} {
            matches := matches + |expWords * actWords| as real / |expWords| as real;
          }
        }
      } else if exp == act {
        matches := matches + 1.0;
      }
    }
    score := matches / |order| as real;
  }

  // ----- what the score says -----

  /** The sum lies between none and one per key, and reaches either end exactly if every key's
      credit does. */
  lemma {:induction false} SumBounds<V>(t: Reading, expected: Args<V>, actual: Args<V>, keys: set<string>)
    requires keys <= expected.Keys
    ensures 0.0 <= CreditSum(t, expected, actual, keys) <= |keys| as real
    ensures CreditSum(t, expected, actual, keys) == |keys| as real
       <==> forall k :: k in keys ==> FullCredit(t, expected[k], Given(actual, k))
    ensures CreditSum(t, expected, actual, keys) == 0.0
       <==> forall k :: k in keys ==> NoCredit(t, expected[k], Given(actual, k))
    decreases |keys|
  {
    hide Credit, FullCredit, NoCredit, Given;
    if k :| k in keys {
      SumWithout(t, expected, actual, keys, k);
      SumBounds(t, expected, actual, keys - {k});
      CreditBounds(t, expected[k], Given(actual, k));
      assert keys == keys - {k} + {k};
    }
  }

  /** The score lies between 0 and 1; without expected or without actual arguments it is 0, and
      otherwise it is 1 exactly if every expected argument has full credit, and 0 exactly if none
      has any. Missing and empty texts have none. */
  lemma FuzzyScoreBounds<V>(t: Reading, expected: Args<V>, actual: Args<V>)
    ensures 0.0 <= FuzzyScore(t, expected, actual) <= 1.0
    ensures FuzzyScore(t, expected, actual) == 1.0
       <==> expected != map[] && actual != map[]
            && forall k :: k in expected ==> FullCredit(t, expected[k], Given(actual, k))
    ensures FuzzyScore(t, expected, actual) == 0.0
       <==> expected == map[] || actual == map[]
            || forall k :: k in expected ==> NoCredit(t, expected[k], Given(actual, k))
  {
    hide FullCredit, NoCredit, Given, CreditSum;
    SumBounds(t, expected, actual, expected.Keys);
    if expected != map[] && actual != map[] {
      assert |expected.Keys| == |expected| > 0;
      Quotient(CreditSum(t, expected, actual, expected.Keys), |expected|);
    }
  }

  lemma Quotient(a: real, b: nat)
    requires 0.0 <= a <= b as real && b > 0
    ensures 0.0 <= a / b as real <= 1.0
    ensures (a / b as real == 1.0 <==> a == b as real) && (a / b as real == 0.0 <==> a == 0.0)
  {
    var q := a / b as real;
    assert q * b as real == a;
  }

  /** A single expected text accepts a call by half of its words, or by any overlap. */
  lemma OneTextAccepts<V>(t: Reading, key: string, text: string, actual: Args<V>)
    requires key in actual && actual[key].Text?
    ensures var e, a := t.lower(text), t.lower(actual[key].text);
      var shared, words := |Words(t.word, e) * Words(t.word, a)|, |Words(t.word, e)|;
      FuzzyScore(t, map[key := Text(text)], actual) >= 0.5 <==>
        a != "" && (Overlaps(e, a) || (words > 0 && 2 * shared >= words))
  {
    var expected := map[key := Text(text)];
    var e, a := t.lower(text), t.lower(actual[key].text);
    assert expected.Keys == {key} && {key} - {key} == {};
    SumWithout(t, expected, actual, {key}, key);
    hide Words, Substring, CreditSum;
    NoKeys(t, expected, actual);
    var ew, aw := Words(t.word, e), Words(t.word, a);
    assert |ew| > 0 <==> ew != {};
    if ew != {} {
      Half(|ew * aw|, |ew|);
    }
    if aw == {} {
      assert ew * aw == {};
    }
  }

  lemma NoKeys<V>(t: Reading, expected: Args<V>, actual: Args<V>)
    ensures CreditSum(t, expected, actual, {}) == 0.0
  {
  }

  lemma Half(a: nat, b: nat)
    requires b > 0
    ensures a as real / b as real >= 0.5 <==> 2 * a >= b
  {
    var q := a as real / b as real;
    assert q * b as real == a as real;
  }

  // ----- in the matching of calls -----

  function Printed<V>(text: Value<V> -> string, args: Args<V>): Arguments {
    map k | k in args :: text(args[k])
  }

  /** The scores of the matching, on arguments whose values are texts or other values; `text`
      stands for `str`. */
  ghost function ArgumentScoring<V>(t: Reading, text: Value<V> -> string): Scoring<Args<V>> {
    Scoring((e: Args<V>, a: Args<V>) => ContainsAll(Printed(text, e), Printed(text, a)),
            (e: Args<V>, a: Args<V>) => FuzzyScore(t, e, a))
  }

  predicate Plain(s: string) {
    forall k :: 0 <= k < |s| ==> 'a' <= s[k] <= 'z' || s[k] == ' '
  }

  /** Small letters are lower case, and word characters. */
  ghost predicate PlainReading(t: Reading) {
    && (forall s :: Plain(s) ==> t.lower(s) == s)
    && (forall c :: 'a' <= c <= 'z' ==> t.word(c))
  }

  lemma NoneLowered(t: Reading)
    requires PlainReading(t)
    ensures t.lower("paris") == "paris" && t.lower("france") == "france" && t.lower("paris france") == "paris france"
  {
    assert Plain("paris") && Plain("france") && Plain("paris france");
  }

  lemma PartsOfBoth()
    ensures Substring("paris", "paris") && Substring("paris", "paris france") && Substring("france", "paris france")
  {
    assert PartOf("paris", "paris", 0) && PartOf("paris", "paris france", 0) && PartOf("france", "paris france", 6);
  }

  lemma FranceApart()
    ensures !Overlaps("france", "paris")
  {
    assert "paris"[0] == 'p' && forall i :: 0 <= i < 6 ==> "france"[i] != 'p';
    forall p: nat
      ensures !PartOf("paris", "france", p)
    {
      if p <= 1 {
        assert "france"[p..p + 5][0] == "france"[p];
      }
    }
    assert forall p: nat :: !PartOf("france", "paris", p);
  }

  lemma WordsApart(t: Reading)
    requires PlainReading(t)
    ensures Words(t.word, "france") !! Words(t.word, "paris")
  {
    OneWord(t.word, "france");
    OneWord(t.word, "paris");
    assert "france"[0] != "paris"[0];
  }

  function City<V>(name: string): Args<V> {
    map["city" := Text(name)]
  }

  lemma CityScore<V>(t: Reading, expected: string, actual: string)
    ensures FuzzyScore<V>(t, City(expected), City(actual)) == 1.0 <==> FullCredit<V>(t, Text(expected), Text(actual))
    ensures FuzzyScore<V>(t, City(expected), City(actual)) == 0.0 <==> NoCredit<V>(t, Text(expected), Text(actual))
  {
    var e, a: Args<V> := City(expected), City(actual);
    FuzzyScoreBounds(t, e, a);
    hide FuzzyScore, FullCredit, NoCredit;
    assert e.Keys == {"city"} && e != map[] && "city" in a && a != map[];
    assert e["city"] == Text(expected) && Given(a, "city") == Text(actual);
    assert forall k :: k in e ==> k == "city";
  }

  lemma CityScores<V>(t: Reading)
    requires PlainReading(t)
    ensures FuzzyScore<V>(t, City("paris"), City("paris france")) == 1.0
    ensures FuzzyScore<V>(t, City("paris"), City("paris")) == 1.0
    ensures FuzzyScore<V>(t, City("france"), City("paris france")) == 1.0
    ensures FuzzyScore<V>(t, City("france"), City("paris")) == 0.0
  {
    NoneLowered(t);
    PartsOfBoth();
    FranceApart();
    WordsApart(t);
    hide Substring, Words, FuzzyScore, PlainReading, City;
    CityScore<V>(t, "paris", "paris france");
    CityScore<V>(t, "paris", "paris");
    CityScore<V>(t, "france", "paris france");
    CityScore<V>(t, "france", "paris");
  }

  /** In the default mode, too, the greedy matching can miss: an expectation of Paris that takes
      the first of two calls it accepts leaves none for an expectation of France. */
  lemma FuzzyNotMaximum<V(!new)>(t: Reading, text: Value<V> -> string, tool: string)
    requires PlainReading(t)
    ensures var s := ArgumentScoring(t, text);
      var expected := [Expected(tool, City("paris"), Fuzzy), Expected(tool, City("france"), Fuzzy)];
      var actual := [Actual(tool, City("paris france")), Actual(tool, City("paris"))];
      Matched(Assign(s, expected, actual)) == 1 && IsMatching(s, expected, actual, map[0 := 1, 1 := 0])
  {
    var s := ArgumentScoring(t, text);
    CityScores<V>(t);
    hide Assign, Matched, Substring, IsMatching, FuzzyScore, PlainReading, City;
    TemptedNotMaximum(s, Expected(tool, City("paris"), Fuzzy), Expected(tool, City("france"), Fuzzy),
                      Actual(tool, City("paris france")), Actual(tool, City("paris")));
  }
}
