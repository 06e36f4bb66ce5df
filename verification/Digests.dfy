/** The byte strings that the directory digests and stat fingerprints hash, and when they
    tell two directories apart. */
module Digests {
  import opened Bytes

  const FILE_MARK: Byte := 102
  const READ_CHUNK := 1024 * 1024

  /** A number, a colon, and what follows. */
  function Field(n: int, rest: seq<Byte>): seq<Byte> {
    Numeral(n) + [COLON] + rest
  }

  lemma FieldInjective(m: int, n: int, x: seq<Byte>, y: seq<Byte>)
    requires Field(m, x) == Field(n, y)
    ensures m == n && x == y
  {
    NumeralWithoutColon(m);
    NumeralWithoutColon(n);
    FieldEnds(Numeral(m), Numeral(n), x, y);
    NumeralInjective(m, n);
  }

  lemma FieldAppend(n: int, x: seq<Byte>, y: seq<Byte>)
    ensures Field(n, x + y) == Field(n, x) + y
  {
  }

  lemma BlockAppend(a: seq<Byte>, x: seq<Byte>, y: seq<Byte>)
    ensures a + (x + y) == (a + x) + y
  {
  }

  // ----- content digest -----

  /** One file: its name, the size its stat reports and the bytes read from it. */
  datatype Entry = Entry(name: seq<Byte>, size: nat, payload: seq<Byte>)

  predicate Honest(e: Entry) {
    e.size == |e.payload|
  }

  /** The record of one file, and what follows it. */
  function Framed(e: Entry, rest: seq<Byte>): seq<Byte> {
    [FILE_MARK] + Field(|e.name|, e.name + Field(e.size, e.payload + rest))
  }

  function Hashed(es: seq<Entry>): seq<Byte> {
    if es == [] then [] else Framed(es[0], Hashed(es[1..]))
  }

  /** What a record determines, whether or not the file was read at its stat size. */
  lemma FramedParts(a: Entry, b: Entry, x: seq<Byte>, y: seq<Byte>)
    requires Framed(a, x) == Framed(b, y)
    ensures a.name == b.name && a.size == b.size && a.payload + x == b.payload + y
  {
    hide Field;
    var a2, b2 := Field(a.size, a.payload + x), Field(b.size, b.payload + y);
    BlockEnds([FILE_MARK], [FILE_MARK], Field(|a.name|, a.name + a2), Field(|b.name|, b.name + b2));
    FieldInjective(|a.name|, |b.name|, a.name + a2, b.name + b2);
    BlockEnds(a.name, b.name, a2, b2);
    FieldInjective(a.size, b.size, a.payload + x, b.payload + y);
  }

  lemma FramedInjective(a: Entry, b: Entry, x: seq<Byte>, y: seq<Byte>)
    requires Honest(a) && Honest(b) && Framed(a, x) == Framed(b, y)
    ensures a == b && x == y
  {
    hide Framed;
    FramedParts(a, b, x, y);
    BlockEnds(a.payload, b.payload, x, y);
  }

  /** While every file is read at its stat size, different lists of names and contents never
      hash the same byte string. */
  lemma {:induction false} ContentInjective(a: seq<Entry>, b: seq<Entry>)
    requires forall i :: 0 <= i < |a| ==> Honest(a[i])
    requires forall i :: 0 <= i < |b| ==> Honest(b[i])
    requires Hashed(a) == Hashed(b)
    ensures a == b
  {
    hide Field;
    if a != [] && b != [] {
      FramedInjective(a[0], b[0], Hashed(a[1..]), Hashed(b[1..]));
      ContentInjective(a[1..], b[1..]);
      assert a == [a[0]] + a[1..] && b == [b[0]] + b[1..];
    }
  }

  lemma FramedAppend(e: Entry, x: seq<Byte>, y: seq<Byte>)
    ensures Framed(e, x + y) == Framed(e, x) + y
  {
    hide Field;
    BlockAppend(e.payload, x, y);
    FieldAppend(e.size, e.payload + x, y);
    BlockAppend(e.name, Field(e.size, e.payload + x), y);
    FieldAppend(|e.name|, e.name + Field(e.size, e.payload + x), y);
    BlockAppend([FILE_MARK], Field(|e.name|, e.name + Field(e.size, e.payload + x)), y);
  }

  lemma {:induction false} HashedSnoc(es: seq<Entry>, e: Entry)
    ensures Hashed(es + [e]) == Hashed(es) + Framed(e, [])
  {
    hide Framed;
    if es == [] {
      assert ([] + [e])[1..] == [];
    } else {
      HashedSnoc(es[1..], e);
      assert (es + [e])[1..] == es[1..] + [e];
      FramedAppend(es[0], Hashed(es[1..]), Framed(e, []));
    }
  }

  ghost predicate AllHonest(es: seq<Entry>) {
    forall i :: 0 <= i < |es| ==> Honest(es[i])
  }

  lemma HashedFirst(e: Entry, rest: seq<Entry>)
    ensures Hashed([e] + rest) == Framed(e, Hashed(rest))
  {
    assert ([e] + rest)[1..] == rest;
  }

  lemma HashedStep(es: seq<Entry>)
    requires es != []
    ensures Hashed(es) == Framed(es[0], Hashed(es[1..])) && Hashed(es) != []
  {
  }

  /** A list of honest entries whose bytes begin with those of other honest ones begins with
      them. */
  lemma {:induction false} HonestPrefix(pre: seq<Entry>, x: seq<Byte>, fs: seq<Entry>) returns (rest: seq<Entry>)
    requires AllHonest(pre) && AllHonest(fs) && Hashed(fs) == Hashed(pre) + x
    ensures AllHonest(rest) && fs == pre + rest && Hashed(rest) == x
  {
    hide Framed, Hashed, Honest;
    HashedNothing();
    if pre == [] {
      rest := fs;
      assert [] + x == x;
    } else {
      HashedStep(pre);
      assert |Hashed(fs)| > 0;
      HashedStep(fs);
      FramedAppend(pre[0], Hashed(pre[1..]), x);
      FramedInjective(fs[0], pre[0], Hashed(fs[1..]), Hashed(pre[1..]) + x);
      rest := HonestPrefix(pre[1..], x, fs[1..]);
      assert fs == [fs[0]] + fs[1..] && pre == [pre[0]] + pre[1..];
    }
  }

  /** Read up to its stat size, the file leaves bytes that, with the files after it, are those of
      other files. */
  ghost predicate StandsFor(e: Entry, after: seq<Entry>, rest: seq<Entry>) {
    var tail := e.payload + Hashed(after);
    e.size <= |tail| && tail[e.size..] == Hashed(rest)
  }

  lemma HashedAround(pre: seq<Entry>, e: Entry, after: seq<Entry>)
    ensures Hashed(pre + ([e] + after)) == Hashed(pre) + Framed(e, Hashed(after))
  {
    HashedFirst(e, after);
    HashedAppend(pre, [e] + after);
  }

  lemma {:induction false} HashedAppend(a: seq<Entry>, b: seq<Entry>)
    ensures Hashed(a + b) == Hashed(a) + Hashed(b)
  {
    hide Framed;
    if a == [] {
      assert a + b == b;
    } else {
      HashedAppend(a[1..], b);
      assert (a + b)[1..] == a[1..] + b;
      FramedAppend(a[0], Hashed(a[1..]), Hashed(b));
    }
  }

  /** The file as its stat size says, and what follows it. */
  lemma ReadShort(e: Entry, tail: seq<Byte>)
    requires e.size <= |e.payload + tail|
    ensures var all := e.payload + tail;
      Framed(e.(payload := all[..e.size]), all[e.size..]) == Framed(e, tail)
  {
    hide Field;
    var all := e.payload + tail;
    assert all[..e.size] + all[e.size..] == all;
  }

  /** A directory in which some file was not read at its stat size, the first such file being e,
      hashes like a directory of honest files if and only if what the bytes of e leave over, with
      the files after it, is such a directory. When all files are honest, no other directory of
      honest files hashes like it. */
  lemma MisreadExactly(pre: seq<Entry>, e: Entry, after: seq<Entry>)
    requires AllHonest(pre) && !Honest(e)
    ensures (exists fs :: AllHonest(fs) && Hashed(fs) == Hashed(pre + ([e] + after)))
       <==> (exists rest :: AllHonest(rest) && StandsFor(e, after, rest))
  {
    HashedAround(pre, e, after);
    hide Framed, Hashed, Honest, StandsFor;
    if fs :| AllHonest(fs) && Hashed(fs) == Hashed(pre + ([e] + after)) {
      var mine := HonestPrefix(pre, Framed(e, Hashed(after)), fs);
      var rest := HonestReading(e, after, mine);
    }
    if rest :| AllHonest(rest) && StandsFor(e, after, rest) {
      var fs := ReadingOf(pre, e, after, rest);
    }
  }

  lemma HonestReading(e: Entry, after: seq<Entry>, mine: seq<Entry>) returns (rest: seq<Entry>)
    requires AllHonest(mine) && Hashed(mine) == Framed(e, Hashed(after))
    ensures AllHonest(rest) && StandsFor(e, after, rest)
  {
    assert mine != [];
    rest := mine[1..];
    FramedParts(mine[0], e, Hashed(rest), Hashed(after));
    hide Framed, Hashed;
    assert (mine[0].payload + Hashed(rest))[e.size..] == Hashed(rest);
  }

  lemma AroundHonest(pre: seq<Entry>, d: Entry, rest: seq<Entry>)
    requires AllHonest(pre) && AllHonest(rest) && d.size == |d.payload|
    ensures AllHonest(pre + ([d] + rest))
  {
  }

  lemma ReadingOf(pre: seq<Entry>, e: Entry, after: seq<Entry>, rest: seq<Entry>) returns (fs: seq<Entry>)
    requires AllHonest(pre) && AllHonest(rest) && StandsFor(e, after, rest)
    ensures AllHonest(fs) && Hashed(fs) == Hashed(pre + ([e] + after))
  {
    hide Framed, Hashed, Honest;
    var d := e.(payload := (e.payload + Hashed(after))[..e.size]);
    ReadShort(e, Hashed(after));
    AroundHonest(pre, d, rest);
    HashedAround(pre, d, rest);
    HashedAround(pre, e, after);
    hide AllHonest;
    fs := pre + ([d] + rest);
  }

  /** A file that grows between its stat and its read can stand for an extra file. */
  lemma GrowingFileCollides(name: seq<Byte>, e: Entry)
    ensures Hashed([Entry(name, 0, Framed(e, []))]) == Hashed([Entry(name, 0, []), e])
  {
    hide Field;
    var one, two := [Entry(name, 0, Framed(e, []))], [Entry(name, 0, []), e];
    assert one[1..] == [] && two[1..] == [e] && [e][1..] == [];
    assert Framed(e, []) + [] == [] + Framed(e, []);
  }

  /** The updates fed to the hash, in the order the code feeds them. */
  method ContentUpdates(files: seq<Entry>) returns (fed: seq<Byte>)
    ensures fed == Hashed(files)
  {
    hide Hashed;
    fed := [];
    assert Hashed(files[..0]) == [] by { HashedNothing(); }
    for i := 0 to |files|
      invariant fed == Hashed(files[..i])
    {
      var announced := [FILE_MARK] + (Numeral(|files[i].name|) + [COLON]);
      var header := announced + files[i].name + (Numeral(files[i].size) + [COLON]);
      var payload := ReadInChunks(files[i].payload);
      HashedSnoc(files[..i], files[i]);
      assert files[..i + 1] == files[..i] + [files[i]];
      assert header + payload == Framed(files[i], []);
      fed := fed + (header + payload);
    }
    assert files[..|files|] == files;
  }

  lemma HashedNothing()
    ensures Hashed([]) == []
  {
  }

  /** A file is read one mebibyte at a time until a read comes back empty. */
  method ReadInChunks(payload: seq<Byte>) returns (fed: seq<Byte>)
    ensures fed == payload
  {
    fed := [];
    var at := 0;
    while at < |payload|
      invariant 0 <= at <= |payload|
      invariant fed == payload[..at]
    {
      var stop := if at + READ_CHUNK < |payload| then at + READ_CHUNK else |payload|;
      fed := fed + payload[at..stop];
      at := stop;
    }
  }

  // ----- source digest -----

  /** As above, but the announced name length counts code points, not bytes. */
  datatype Source = Source(name: seq<CodePoint>, payload: seq<Byte>)

  function SourceFramed(s: Source, rest: seq<Byte>): seq<Byte> {
    [FILE_MARK] + Field(|s.name|, Utf8(s.name) + Field(|s.payload|, s.payload + rest))
  }

  function SourceHashed(ss: seq<Source>): seq<Byte> {
    if ss == [] then [] else SourceFramed(ss[0], SourceHashed(ss[1..]))
  }

  lemma SourceFramedInjective(a: Source, b: Source, x: seq<Byte>, y: seq<Byte>)
    requires SourceFramed(a, x) == SourceFramed(b, y)
    ensures a == b && x == y
  {
    hide Field, Utf8;
    var a2, b2 := Field(|a.payload|, a.payload + x), Field(|b.payload|, b.payload + y);
    BlockEnds([FILE_MARK], [FILE_MARK], Field(|a.name|, Utf8(a.name) + a2), Field(|b.name|, Utf8(b.name) + b2));
    FieldInjective(|a.name|, |b.name|, Utf8(a.name) + a2, Utf8(b.name) + b2);
    Utf8Ends(a.name, b.name, a2, b2);
    FieldInjective(|a.payload|, |b.payload|, a.payload + x, b.payload + y);
    BlockEnds(a.payload, b.payload, x, y);
  }

  /** Counting code points instead of bytes loses nothing: UTF-8 is self-delimiting. */
  lemma {:induction false} SourceInjective(a: seq<Source>, b: seq<Source>)
    requires SourceHashed(a) == SourceHashed(b)
    ensures a == b
  {
    hide Field;
    if a != [] && b != [] {
      SourceFramedInjective(a[0], b[0], SourceHashed(a[1..]), SourceHashed(b[1..]));
      SourceInjective(a[1..], b[1..]);
      assert a == [a[0]] + a[1..] && b == [b[0]] + b[1..];
    }
  }

  // ----- stat fingerprint -----

  datatype Stat = Stat(name: seq<Byte>, inode: int, size: int, mtimeNs: int)

  function StatFramed(s: Stat, rest: seq<Byte>): seq<Byte> {
    s.name + [COLON] + Field(s.inode, Field(s.size, Field(s.mtimeNs, rest)))
  }

  function StatHashed(ss: seq<Stat>): seq<Byte> {
    if ss == [] then [] else StatFramed(ss[0], StatHashed(ss[1..]))
  }

  lemma StatFramedInjective(a: Stat, b: Stat, x: seq<Byte>, y: seq<Byte>)
    requires Without(COLON, a.name) && Without(COLON, b.name) && StatFramed(a, x) == StatFramed(b, y)
    ensures a == b && x == y
  {
    hide Field;
    var a3, b3 := Field(a.mtimeNs, x), Field(b.mtimeNs, y);
    var a2, b2 := Field(a.size, a3), Field(b.size, b3);
    FieldEnds(a.name, b.name, Field(a.inode, a2), Field(b.inode, b2));
    FieldInjective(a.inode, b.inode, a2, b2);
    FieldInjective(a.size, b.size, a3, b3);
    FieldInjective(a.mtimeNs, b.mtimeNs, x, y);
  }

  /** Lists of colon-free names are told apart by their fingerprints' byte strings. */
  lemma {:induction false} StatInjective(a: seq<Stat>, b: seq<Stat>)
    requires forall i :: 0 <= i < |a| ==> Without(COLON, a[i].name)
    requires forall i :: 0 <= i < |b| ==> Without(COLON, b[i].name)
    requires StatHashed(a) == StatHashed(b)
    ensures a == b
  {
    hide Field;
    if a != [] && b != [] {
      StatFramedInjective(a[0], b[0], StatHashed(a[1..]), StatHashed(b[1..]));
      StatInjective(a[1..], b[1..]);
      assert a == [a[0]] + a[1..] && b == [b[0]] + b[1..];
    }
  }

  lemma StatFramedAppend(s: Stat, x: seq<Byte>, y: seq<Byte>)
    ensures StatFramed(s, x + y) == StatFramed(s, x) + y
  {
    hide Field;
    FieldAppend(s.mtimeNs, x, y);
    FieldAppend(s.size, Field(s.mtimeNs, x), y);
    FieldAppend(s.inode, Field(s.size, Field(s.mtimeNs, x)), y);
    BlockAppend(s.name + [COLON], Field(s.inode, Field(s.size, Field(s.mtimeNs, x))), y);
  }

  /** Every name that contains three numerals between colons stands for two files at once. */
  lemma ColonNameCollides(first: Stat, second: Stat)
    ensures StatHashed([second.(name := StatFramed(first, second.name))]) == StatHashed([first, second])
  {
    hide StatFramed;
    var merged := second.(name := StatFramed(first, second.name));
    assert [merged][1..] == [] && [first, second][1..] == [second] && [second][1..] == [];
    MergedName(first, second);
  }

  lemma MergedName(first: Stat, second: Stat)
    ensures StatFramed(second.(name := StatFramed(first, second.name)), []) == StatFramed(first, StatFramed(second, []))
  {
    hide Field;
    var tail := [COLON] + Field(second.inode, Field(second.size, Field(second.mtimeNs, [])));
    StatFramedAppend(first, second.name, tail);
    assert StatFramed(second, []) == second.name + tail;
  }

  ghost predicate ColonFree(ss: seq<Stat>) {
    forall i :: 0 <= i < |ss| ==> Without(COLON, ss[i].name)
  }

  /** The name reads as the records of some files followed by one more colon-free name. */
  ghost predicate NamesSeveral(name: seq<Byte>, ss: seq<Stat>, last: seq<Byte>) {
    ss != [] && ColonFree(ss) && Without(COLON, last) && name == StatHashed(ss) + last
  }

  /** A fingerprinted file can be mistaken for other files, all with colon-free names, exactly
      when its own name spells out the records of all but the last of them. */
  lemma AmbiguousExactly(s: Stat)
    ensures (exists ss :: ColonFree(ss) && ss != [s] && StatHashed(ss) == StatHashed([s]))
       <==> (exists pre, last :: NamesSeveral(s.name, pre, last))
  {
    hide StatHashed, Without;
    if ss :| ColonFree(ss) && ss != [s] && StatHashed(ss) == StatHashed([s]) {
      AmbiguousNames(ss, s);
    }
    if pre, last :| NamesSeveral(s.name, pre, last) {
      RecordAfter(pre, last, s);
      NamesColonFree(pre, s.(name := last));
      assert (pre + [s.(name := last)]) != [s];
    }
  }

  lemma NamesColonFree(pre: seq<Stat>, s: Stat)
    requires ColonFree(pre) && Without(COLON, s.name)
    ensures ColonFree(pre + [s])
  {
  }

  lemma AmbiguousNames(ss: seq<Stat>, s: Stat)
    requires ColonFree(ss) && ss != [s] && StatHashed(ss) == StatHashed([s])
    ensures exists pre, last :: NamesSeveral(s.name, pre, last)
  {
    hide StatHashed, Without;
    StatNonEmpty([s]);
    StatNothing();
    assert ss != [];
    var pre, last := ss[..|ss| - 1], ss[|ss| - 1];
    assert ss == pre + [last];
    LastRecord(pre, last, s);
    assert NamesSeveral(s.name, pre, last.name);
  }

  lemma StatNonEmpty(ss: seq<Stat>)
    requires ss != []
    ensures StatHashed(ss) != []
  {
  }

  /** The three numbers and colons that end a record. */
  function Numbers(s: Stat): seq<Byte> {
    [COLON] + Field(s.inode, Field(s.size, Field(s.mtimeNs, [])))
  }

  lemma {:induction false} StatSnoc(ss: seq<Stat>, s: Stat)
    ensures StatHashed(ss + [s]) == StatHashed(ss) + (s.name + Numbers(s))
  {
    hide Field;
    if ss == [] {
      assert ([] + [s])[1..] == [];
      assert StatFramed(s, []) == s.name + Numbers(s);
    } else {
      StatSnoc(ss[1..], s);
      assert (ss + [s])[1..] == ss[1..] + [s];
      StatFramedAppend(ss[0], StatHashed(ss[1..]), s.name + Numbers(s));
    }
  }

  lemma RecordAfter(pre: seq<Stat>, last: seq<Byte>, s: Stat)
    requires s.name == StatHashed(pre) + last
    ensures StatHashed(pre + [s.(name := last)]) == StatHashed([s])
  {
    hide Numbers, StatHashed;
    var t := s.(name := last);
    StatSnoc(pre, t);
    StatSnoc([], s);
    StatNothing();
    assert [] + [s] == [s] && [] + (s.name + Numbers(s)) == s.name + Numbers(s);
    SameNumbers(s, t);
    BlockAppend(StatHashed(pre), last, Numbers(s));
  }

  lemma StatNothing()
    ensures StatHashed([]) == []
  {
  }

  lemma SameNumbers(s: Stat, t: Stat)
    requires s.(name := t.name) == t
    ensures Numbers(s) == Numbers(t)
  {
  }

  /** Read from its end, a record gives back its three numbers. */
  lemma NumbersFromEnd(a: seq<Byte>, b: seq<Byte>, s: Stat, t: Stat)
    requires a + Numbers(s) == b + Numbers(t)
    ensures a == b && s.inode == t.inode && s.size == t.size && s.mtimeNs == t.mtimeNs
  {
    hide Field, Numeral;
    var a3, b3 := WithNumbers(a, s), WithNumbers(b, t);
    NumbersInFront(a, s);
    NumbersInFront(b, t);
    assert a3 == (a3 + [COLON])[..|a3|] && b3 == (b3 + [COLON])[..|b3|];
    LastField(a + [COLON] + Numeral(s.inode) + [COLON] + Numeral(s.size),
              b + [COLON] + Numeral(t.inode) + [COLON] + Numeral(t.size), s.mtimeNs, t.mtimeNs);
    LastField(a + [COLON] + Numeral(s.inode), b + [COLON] + Numeral(t.inode), s.size, t.size);
    LastField(a, b, s.inode, t.inode);
  }

  function WithNumbers(a: seq<Byte>, s: Stat): seq<Byte> {
    a + [COLON] + Numeral(s.inode) + [COLON] + Numeral(s.size) + [COLON] + Numeral(s.mtimeNs)
  }

  lemma NumbersInFront(a: seq<Byte>, s: Stat)
    ensures a + Numbers(s) == WithNumbers(a, s) + [COLON]
  {
    hide Numeral;
  }

  lemma LastField(a: seq<Byte>, b: seq<Byte>, m: int, n: int)
    requires a + [COLON] + Numeral(m) == b + [COLON] + Numeral(n)
    ensures a == b && m == n
  {
    NumeralWithoutColon(m);
    NumeralWithoutColon(n);
    var x, y := Numeral(m), Numeral(n);
    var s, t := a + [COLON] + x, b + [COLON] + y;
    assert s[|a|] == COLON && t[|b|] == COLON;
    assert |a| == |b| by {
      assert forall i :: |a| < i < |s| ==> s[i] == x[i - |a| - 1];
      assert forall i :: |b| < i < |t| ==> t[i] == y[i - |b| - 1];
    }
    assert a == s[..|a|] && b == t[..|b|] && x == s[|a| + 1..] && y == t[|b| + 1..];
    NumeralInjective(m, n);
  }

  lemma LastRecord(pre: seq<Stat>, last: Stat, s: Stat)
    requires StatHashed(pre + [last]) == StatHashed([s]) && pre + [last] != [s]
    ensures pre != [] && s.name == StatHashed(pre) + last.name
  {
    hide Numbers, StatFramed, StatHashed;
    StatNothing();
    StatSnoc(pre, last);
    StatSnoc([], s);
    assert [] + [s] == [s];
    assert StatHashed(pre) + (last.name + Numbers(last)) == (StatHashed(pre) + last.name) + Numbers(last);
    assert [] + (s.name + Numbers(s)) == s.name + Numbers(s);
    NumbersFromEnd(StatHashed(pre) + last.name, s.name, last, s);
    assert [] + [last] == [last] && [] + last.name == last.name;
  }

  // ----- any names -----

  /** The name reads as the records of some files followed by one more name. */
  ghost predicate SpellsOut(name: seq<Byte>, pre: seq<Stat>, last: seq<Byte>) {
    pre != [] && name == StatHashed(pre) + last
  }

  /** The first two files of a list as one. */
  function Joined(ss: seq<Stat>): seq<Stat>
    requires |ss| >= 2
  {
    [ss[1].(name := StatFramed(ss[0], ss[1].name))] + ss[2..]
  }

  /** Two or more files hash like one file fewer. */
  lemma JoinedCollides(ss: seq<Stat>)
    requires |ss| >= 2
    ensures StatHashed(Joined(ss)) == StatHashed(ss)
  {
    var merged, rest := ss[1].(name := StatFramed(ss[0], ss[1].name)), StatHashed(ss[2..]);
    assert StatHashed(ss) == StatFramed(ss[0], StatFramed(ss[1], rest)) by {
      assert ss[1..][1..] == ss[2..];
    }
    assert Joined(ss)[1..] == ss[2..];
    hide StatHashed, StatFramed;
    MergedName(ss[0], ss[1]);
    StatFramedAppend(merged, [], rest);
    StatFramedAppend(ss[1], [], rest);
    StatFramedAppend(ss[0], StatFramed(ss[1], []), rest);
    assert [] + rest == rest;
  }

  /** Whatever the names, a list of files shares its bytes with another list if and only if it has
      two files or more, or one whose name spells out records. */
  lemma SharedExactly(ss: seq<Stat>)
    ensures (exists tt: seq<Stat> :: tt != ss && StatHashed(tt) == StatHashed(ss))
       <==> |ss| >= 2 || (|ss| == 1 && exists pre, last :: SpellsOut(ss[0].name, pre, last))
  {
    hide StatHashed;
    StatNothing();
    if |ss| >= 2 {
      JoinedCollides(ss);
      assert |Joined(ss)| < |ss|;
    } else if |ss| == 1 {
      assert ss == [ss[0]];
      if tt: seq<Stat> :| tt != ss && StatHashed(tt) == StatHashed(ss) {
        StatNonEmpty(ss);
        assert tt == tt[..|tt| - 1] + [tt[|tt| - 1]];
        LastRecord(tt[..|tt| - 1], tt[|tt| - 1], ss[0]);
        assert SpellsOut(ss[0].name, tt[..|tt| - 1], tt[|tt| - 1].name);
      }
      if pre, last :| SpellsOut(ss[0].name, pre, last) {
        RecordAfter(pre, last, ss[0]);
        assert |pre + [ss[0].(name := last)]| > 1;
      }
    } else {
      if tt: seq<Stat> :| tt != ss && StatHashed(tt) == StatHashed(ss) {
        StatNonEmpty(tt);
      }
    }
  }
}
