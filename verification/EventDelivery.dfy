/** From a worker's output to the controller's events: which emitted events arrive. */
module EventDelivery {
  import opened Bytes
  import opened EventChannel
  import opened LineReader
  import opened RecordPlacement
  import opened Sequences
  import opened Wrappers

  // ----- what JSON and UTF-8 promise -----

  predicate NoBreakChar(s: string) {
    forall i :: 0 <= i < |s| ==> s[i] != '\r' && s[i] != '\n'
  }

  predicate BlankText(s: string) {
    forall i :: 0 <= i < |s| ==> s[i] in {'\t', '\n', '\r', ' '}
  }

  /** A rendered object parses back, with white space after it but with nothing else. */
  ghost predicate ParsesBack<P(!new)>(c: Codec<P>, e: Envelope<P>, after: string) {
    c.parse(c.render(e) + after) == if BlankText(after) then Some(e) else None
  }

  /** No document holds the event prefix followed by a rendered object: outside a string the
      prefix is no token, and inside one the object's first quotation mark ends the string. */
  ghost predicate PrefixUnparsable<P(!new)>(c: Codec<P>, before: string, e: Envelope<P>, after: string) {
    c.parse(before + EVENT_PREFIX + c.render(e) + after) == None
  }

  /** Encoded text decodes to itself in any surroundings. */
  ghost predicate DecodesWithin<P(!new)>(c: Codec<P>, x: seq<Byte>, s: string, y: seq<Byte>) {
    s != "" ==> c.decode(x + c.encode(s) + y) == c.decode(x) + s + c.decode(y)
  }

  ghost predicate DecodesBytes<P(!new)>(c: Codec<P>, x: seq<Byte>) {
    (x == [] <==> c.decode(x) == "") && (BlankText(c.decode(x)) <==> Blank(x))
  }

  ghost predicate OneLineEach<P(!new)>(c: Codec<P>, s: string) {
    NoBreakChar(s) ==> NoBreak(c.encode(s))
  }

  ghost predicate ValidCodec<P(!new)>(c: Codec<P>) {
    && (forall e: Envelope<P> :: NoBreakChar(c.render(e)))
    && (forall e: Envelope<P>, after: string :: ParsesBack(c, e, after))
    && (forall before: string, e: Envelope<P>, after: string :: PrefixUnparsable(c, before, e, after))
    && (forall x: seq<Byte>, s: string, y: seq<Byte> :: DecodesWithin(c, x, s, y))
    && (forall x: seq<Byte> :: DecodesBytes(c, x))
    && (forall s: string :: OneLineEach(c, s))
  }

  // ----- one record that holds an emitted line -----

  function TrustedRaw<P>(c: Codec<P>, key: string, raw: seq<Byte>): Option<P> {
    Trusted(c, key, RStrip(c.decode(raw)))
  }

  function LineOf<P>(c: Codec<P>, key: string, p: P): seq<Byte> {
    c.encode(EmitLine(c, key, p))
  }

  lemma {:induction false} RStripBlank(t: string)
    ensures BlankText(RStrip(t)) <==> BlankText(t)
  {
    if t != "" && (t[|t| - 1] == '\r' || t[|t| - 1] == '\n') {
      RStripBlank(t[..|t| - 1]);
      assert t == t[..|t| - 1] + [t[|t| - 1]];
    }
  }

  lemma {:induction false} RStripAfterAny(x: string, last: char, y: string)
    requires last != '\r' && last != '\n'
    ensures RStrip(x + ([last] + y)) == x + ([last] + RStrip(y))
  {
    var all := x + ([last] + y);
    if y != "" && (y[|y| - 1] == '\r' || y[|y| - 1] == '\n') {
      assert all[..|all| - 1] == x + ([last] + y[..|y| - 1]);
      RStripAfterAny(x, last, y[..|y| - 1]);
    } else {
      assert y == "" ==> all == x + [last];
    }
  }

  lemma RStripWithin(x: string, s: string, y: string)
    requires s != "" && NoBreakChar(s)
    ensures RStrip(x + s + y) == x + s + RStrip(y)
  {
    var n := |s| - 1;
    assert x + s + y == (x + s[..n]) + ([s[n]] + y);
    RStripAfterAny(x + s[..n], s[n], y);
    assert (x + s[..n]) + ([s[n]] + RStrip(y)) == x + s + RStrip(y);
  }

  /** The event prefix does not overlap itself. */
  lemma PrefixesApart(x: string, t: string)
    requires x != "" && EVENT_PREFIX <= x + EVENT_PREFIX + t
    ensures |x| >= |EVENT_PREFIX| && EVENT_PREFIX <= x
  {
    var all := x + EVENT_PREFIX + t;
    assert all[|x|] == EVENT_PREFIX[0] == 'L';
    assert forall k :: 1 <= k < |EVENT_PREFIX| ==> EVENT_PREFIX[k] != 'L';
    assert x == all[..|x|];
  }

  lemma TextAround<P(!new)>(c: Codec<P>, key: string, x: seq<Byte>, p: P, y: seq<Byte>)
    requires ValidCodec(c)
    ensures NoBreakChar(EmitLine(c, key, p)) && EmitLine(c, key, p) != ""
    ensures RStrip(c.decode(x + LineOf(c, key, p) + y))
         == c.decode(x) + EmitLine(c, key, p) + RStrip(c.decode(y))
  {
    var s := EmitLine(c, key, p);
    assert DecodesWithin(c, x, s, y);
    assert NoBreakChar(EVENT_PREFIX) && NoBreakChar(c.render(Envelope(Sign(c, c.canonical(p), key), p)));
    RStripWithin(c.decode(x), s, c.decode(y));
  }

  /** A record that holds a whole emitted line is trusted exactly when it starts with the line
      and has nothing but white space after it. */
  lemma RecordWithEmission<P(!new)>(c: Codec<P>, key: string, x: seq<Byte>, p: P, y: seq<Byte>)
    requires ValidCodec(c) && key != ""
    ensures TrustedRaw(c, key, x + LineOf(c, key, p) + y) == if x == [] && Blank(y) then Some(p) else None
  {
    TextAround(c, key, x, p, y);
    var e := Envelope(Sign(c, c.canonical(p), key), p);
    var before, after := c.decode(x), RStrip(c.decode(y));
    RStripBlank(c.decode(y));
    assert DecodesBytes(c, x) && DecodesBytes(c, y);
    hide RStrip, ValidCodec;
    var text := before + EmitLine(c, key, p) + after;
    if x == [] {
      assert ParsesBack(c, e, after) by { LawsFor(c, e, before, after); }
      assert text == EVENT_PREFIX + (c.render(e) + after);
      assert text[|EVENT_PREFIX|..] == c.render(e) + after;
    } else if EVENT_PREFIX <= text {
      assert text == before + EVENT_PREFIX + (c.render(e) + after);
      PrefixesApart(before, c.render(e) + after);
      var inner := before[|EVENT_PREFIX|..];
      assert PrefixUnparsable(c, inner, e, after) by { LawsFor(c, e, inner, after); }
      assert text[|EVENT_PREFIX|..] == inner + EVENT_PREFIX + c.render(e) + after;
    }
  }

  lemma LawsFor<P(!new)>(c: Codec<P>, e: Envelope<P>, before: string, after: string)
    requires ValidCodec(c)
    ensures ParsesBack(c, e, after) && PrefixUnparsable(c, before, e, after)
  {
  }

  /** What a worker emits is one line, trusted by a controller with the same key. */
  lemma EmittedLineTrusted<P(!new)>(c: Codec<P>, key: string, p: P)
    requires ValidCodec(c) && key != ""
    ensures LineOf(c, key, p) != [] && NoBreak(LineOf(c, key, p))
    ensures TrustedRaw(c, key, LineOf(c, key, p)) == Some(p)
  {
    var w := LineOf(c, key, p);
    TextAround(c, key, [], p, []);
    RecordWithEmission(c, key, [], p, []);
    assert [] + w + [] == w && OneLineEach(c, EmitLine(c, key, p));
    assert DecodesBytes(c, w) && DecodesBytes(c, []);
  }

  // ----- a worker's whole output -----

  /** What a worker writes, in order: signed events, each printed with a newline, and any other
      bytes, ended by a newline or not. */
  datatype Item<P> = Emit(payload: P) | Text(bytes: seq<Byte>)

  function Written<P>(c: Codec<P>, key: string, item: Item<P>): seq<Byte> {
    match item
    case Emit(p) => LineOf(c, key, p) + [LF]
    case Text(bytes) => bytes
  }

  function Output<P>(c: Codec<P>, key: string, items: seq<Item<P>>): seq<Byte> {
    if items == [] then []
    else Output(c, key, items[..|items| - 1]) + Written(c, key, items[|items| - 1])
  }

  /** Where the i-th item begins. */
  function Offset<P>(c: Codec<P>, key: string, items: seq<Item<P>>, i: nat): nat
    requires i <= |items|
  {
    |Output(c, key, items[..i])|
  }

  /** The i-th item is an event, and its line lies in from..to-1. */
  predicate LineWithin<P>(c: Codec<P>, key: string, items: seq<Item<P>>, i: nat, from: nat, to: nat)
    requires i < |items|
  {
    items[i].Emit? && from <= Offset(c, key, items, i)
    && Offset(c, key, items, i) + |LineOf(c, key, items[i].payload)| <= to
  }

  /** Signatures are the worker's alone: no stretch of its output that lacks a whole emitted
      line would be trusted. */
  ghost predicate OnlyEmittedSigned<P>(c: Codec<P>, key: string, items: seq<Item<P>>) {
    var s := Output(c, key, items);
    forall from: nat, to: nat :: from <= to <= |s| && TrustedRaw(c, key, s[from..to]) != None ==>
      exists i :: 0 <= i < |items| && LineWithin(c, key, items, i, from, to)
  }

  lemma {:induction false} OutputSplits<P>(c: Codec<P>, key: string, items: seq<Item<P>>, i: nat)
    requires i < |items|
    ensures Offset(c, key, items, i + 1) == Offset(c, key, items, i) + |Written(c, key, items[i])|
    ensures Offset(c, key, items, i + 1) <= |Output(c, key, items)|
    ensures Output(c, key, items)[Offset(c, key, items, i)..Offset(c, key, items, i + 1)] == Written(c, key, items[i])
  {
    hide Written;
    var n := |items| - 1;
    assert items[..i + 1][..i] == items[..i];
    if i == n {
      assert items[..i + 1] == items;
    } else {
      OutputSplits(c, key, items[..n], i);
      assert items[..n][..i] == items[..i] && items[..n][..i + 1] == items[..i + 1];
      assert items[..n][i] == items[i];
      PrefixSlice(Output(c, key, items[..n]), Written(c, key, items[n]),
                  Offset(c, key, items, i), Offset(c, key, items, i + 1));
    }
  }

  lemma PrefixSlice(a: seq<Byte>, b: seq<Byte>, from: nat, to: nat)
    requires from <= to <= |a|
    ensures (a + b)[from..to] == a[from..to]
  {
  }

  lemma {:induction false} OffsetsRise<P>(c: Codec<P>, key: string, items: seq<Item<P>>, i: nat, j: nat)
    requires i <= j <= |items|
    ensures Offset(c, key, items, i) <= Offset(c, key, items, j)
  {
    hide Offset;
    if i < j {
      OffsetsRise(c, key, items, i, j - 1);
      OutputSplits(c, key, items, j - 1);
    }
  }

  /** The line w, followed by a newline, lies at offset a of the stream. */
  ghost predicate LineAt(s: seq<Byte>, a: nat, w: seq<Byte>) {
    w != [] && NoBreak(w) && a + |w| < |s| && s[a..a + |w|] == w && s[a + |w|] == LF
  }

  lemma SliceIsLine(s: seq<Byte>, a: nat, b: nat, w: seq<Byte>)
    requires a <= b <= |s| && s[a..b] == w + [LF] && w != [] && NoBreak(w)
    ensures b == a + |w| + 1 && LineAt(s, a, w)
  {
    assert s[a..b][..|w|] == w && s[a..b][|w|] == LF;
  }

  lemma EmissionAt<P(!new)>(c: Codec<P>, key: string, items: seq<Item<P>>, i: nat)
    requires ValidCodec(c) && key != "" && i < |items| && items[i].Emit?
    ensures var a, w := Offset(c, key, items, i), LineOf(c, key, items[i].payload);
      LineAt(Output(c, key, items), a, w) && Offset(c, key, items, i + 1) == a + |w| + 1
  {
    EmittedLineTrusted(c, key, items[i].payload);
    OutputSplits(c, key, items, i);
    hide Output, Offset, ValidCodec, TrustedRaw, NoBreak, LineOf, LineAt;
    SliceIsLine(Output(c, key, items), Offset(c, key, items, i), Offset(c, key, items, i + 1),
                LineOf(c, key, items[i].payload));
  }

  /** Events begin at different offsets, in order. */
  lemma EmissionsApart<P(!new)>(c: Codec<P>, key: string, items: seq<Item<P>>, i: nat, j: nat)
    requires ValidCodec(c) && key != "" && i < j <= |items| && items[i].Emit?
    ensures Offset(c, key, items, i) < Offset(c, key, items, j)
  {
    EmissionAt(c, key, items, i);
    OffsetsRise(c, key, items, i + 1, j);
  }

  // ----- which records are trusted -----

  lemma CutAround(s: seq<Byte>, a: nat, w: seq<Byte>, from: nat, to: nat)
    requires LineAt(s, a, w) && from <= a && a + |w| <= to <= |s|
    ensures s[from..to] == s[from..a] + w + s[a + |w|..to]
  {
    assert s[from..to] == s[from..a] + s[a..a + |w|] + s[a + |w|..to];
  }

  /** A stretch of the output that holds a whole emitted line. */
  lemma StretchTrusted<P(!new)>(c: Codec<P>, key: string, items: seq<Item<P>>, i: nat, from: nat, to: nat)
    requires ValidCodec(c) && key != "" && i < |items| && to <= |Output(c, key, items)|
    requires LineWithin(c, key, items, i, from, to)
    ensures var s, a, w := Output(c, key, items), Offset(c, key, items, i), LineOf(c, key, items[i].payload);
      TrustedRaw(c, key, s[from..to])
        == if from == a && Blank(s[a + |w|..to]) then Some(items[i].payload) else None
  {
    var s, a, w := Output(c, key, items), Offset(c, key, items, i), LineOf(c, key, items[i].payload);
    EmissionAt(c, key, items, i);
    CutAround(s, a, w, from, to);
    hide Output, Offset, ValidCodec, TrustedRaw, LineOf, Blank;
    RecordWithEmission(c, key, s[from..a], items[i].payload, s[a + |w|..to]);
  }

  /** A record that begins where an event does is trusted exactly if it carries the event's
      line. */
  lemma RecordAtEvent<P(!new)>(c: Codec<P>, key: string, items: seq<Item<P>>, i: nat, p: Piece)
    requires ValidCodec(c) && key != "" && OnlyEmittedSigned(c, key, items)
    requires i < |items| && items[i].Emit? && p.from == Offset(c, key, items, i)
    requires p.from <= p.to <= |Output(c, key, items)|
    ensures TrustedRaw(c, key, Output(c, key, items)[p.from..p.to])
         == if Carries(Output(c, key, items), p, p.from, |LineOf(c, key, items[i].payload)|)
            then Some(items[i].payload) else None
  {
    hide Output, Offset, ValidCodec, TrustedRaw, LineOf, Blank;
    if LineWithin(c, key, items, i, p.from, p.to) {
      StretchTrusted(c, key, items, i, p.from, p.to);
    } else if TrustedRaw(c, key, Output(c, key, items)[p.from..p.to]) != None {
      var j :| 0 <= j < |items| && LineWithin(c, key, items, j, p.from, p.to);
      StretchTrusted(c, key, items, j, p.from, p.to);
      if i < j {
        EmissionsApart(c, key, items, i, j);
      } else {
        EmissionsApart(c, key, items, j, i);
      }
      assert false;
    }
  }

  lemma RecordElsewhere<P(!new)>(c: Codec<P>, key: string, items: seq<Item<P>>, p: Piece)
    requires ValidCodec(c) && key != "" && OnlyEmittedSigned(c, key, items)
    requires forall i :: 0 <= i < |items| && items[i].Emit? ==> p.from != Offset(c, key, items, i)
    requires p.from <= p.to <= |Output(c, key, items)|
    ensures TrustedRaw(c, key, Output(c, key, items)[p.from..p.to]) == None
  {
    hide Output, Offset, ValidCodec, TrustedRaw, LineOf, Blank;
    if TrustedRaw(c, key, Output(c, key, items)[p.from..p.to]) != None {
      var j :| 0 <= j < |items| && LineWithin(c, key, items, j, p.from, p.to);
      StretchTrusted(c, key, items, j, p.from, p.to);
    }
  }

  /** What a list of records adds to the events, record by record. */
  function TrustedEach<P>(c: Codec<P>, key: string, raws: seq<seq<Byte>>): seq<seq<P>> {
    seq(|raws|, k requires 0 <= k < |raws| => AsSeq(TrustedRaw(c, key, raws[k])))
  }

  predicate EventArrives<P>(c: Codec<P>, key: string, items: seq<Item<P>>, i: nat, pieces: seq<Piece>)
    requires i < |items|
  {
    items[i].Emit?
    && Arrives(Output(c, key, items), pieces, Offset(c, key, items, i), |LineOf(c, key, items[i].payload)|)
  }

  /** Which items are events. */
  function EventIndices<P>(items: seq<Item<P>>): (r: seq<nat>)
    ensures forall j :: 0 <= j < |r| ==> r[j] < |items| && items[r[j]].Emit?
  {
    if items == [] then []
    else
      var n := |items| - 1;
      EventIndices(items[..n]) + if items[n].Emit? then [n] else []
  }

  lemma {:induction false} EventIndicesAre<P>(items: seq<Item<P>>)
    ensures Increasing(EventIndices(items))
    ensures forall i :: 0 <= i < |items| && items[i].Emit? ==> i in EventIndices(items)
  {
    if items != [] {
      EventIndicesAre(items[..|items| - 1]);
    }
  }

  function EventOffsets<P>(c: Codec<P>, key: string, items: seq<Item<P>>): seq<nat> {
    var indices := EventIndices(items);
    seq(|indices|, j requires 0 <= j < |indices| => Offset(c, key, items, indices[j]))
  }

  /** What each event adds: its payload if it arrives. */
  function ArrivedEach<P>(c: Codec<P>, key: string, items: seq<Item<P>>, pieces: seq<Piece>): seq<seq<P>> {
    var indices := EventIndices(items);
    seq(|indices|, j requires 0 <= j < |indices| =>
      if EventArrives(c, key, items, indices[j], pieces) then [items[indices[j]].payload] else [])
  }

  /** The payloads of the events that arrive, in the order they were emitted. */
  function Arrived<P>(c: Codec<P>, key: string, items: seq<Item<P>>, chunks: seq<seq<Byte>>): seq<P> {
    Flatten(ArrivedEach(c, key, items, CutsOf(chunks).pieces))
  }

  lemma EventOffsetsAre<P(!new)>(c: Codec<P>, key: string, items: seq<Item<P>>)
    requires ValidCodec(c) && key != ""
    ensures Increasing(EventOffsets(c, key, items))
    ensures forall i :: 0 <= i < |items| && items[i].Emit? ==> Offset(c, key, items, i) in EventOffsets(c, key, items)
  {
    EventIndicesAre(items);
    hide EventIndices, Offset, ValidCodec;
    var indices, offsets := EventIndices(items), EventOffsets(c, key, items);
    forall i, j | 0 <= i < j < |offsets|
      ensures offsets[i] < offsets[j]
    {
      EmissionsApart(c, key, items, indices[i], indices[j]);
    }
    forall i | 0 <= i < |items| && items[i].Emit?
      ensures Offset(c, key, items, i) in offsets
    {
      var j :| 0 <= j < |indices| && indices[j] == i;
      assert offsets[j] == Offset(c, key, items, i);
    }
  }

  function Froms(pieces: seq<Piece>): seq<nat> {
    seq(|pieces|, k requires 0 <= k < |pieces| => pieces[k].from)
  }

  lemma FromsAre(s: seq<Byte>, handed: seq<seq<Byte>>, c: Cuts)
    requires Tiled(s, handed, c)
    ensures |handed| == |c.pieces| && Increasing(Froms(c.pieces))
    ensures forall k :: 0 <= k < |handed| ==> c.pieces[k].from <= c.pieces[k].to <= |s|
    ensures forall k :: 0 <= k < |handed| ==> handed[k] == s[c.pieces[k].from..c.pieces[k].to]
  {
    hide Lies;
    forall k | 0 <= k < |handed|
      ensures c.pieces[k].from <= c.pieces[k].to <= |s| && handed[k] == s[c.pieces[k].from..c.pieces[k].to]
      ensures forall i :: 0 <= i < k ==> Froms(c.pieces)[i] < Froms(c.pieces)[k]
    {
      RecordFacts(s, handed, c, k);
    }
  }

  lemma RecordFacts(s: seq<Byte>, handed: seq<seq<Byte>>, c: Cuts, k: nat)
    requires Tiled(s, handed, c) && k < |handed|
    ensures c.pieces[k].from <= c.pieces[k].to <= |s| && handed[k] == s[c.pieces[k].from..c.pieces[k].to]
    ensures forall i :: 0 <= i < k ==> c.pieces[i].from < c.pieces[k].from
  {
    assert Lies(s, c.pieces[k], handed[k]);
    forall i | 0 <= i < k
      ensures c.pieces[i].from < c.pieces[k].from
    {
      assert Lies(s, c.pieces[i], handed[i]);
      PiecesInOrder(s, handed, c, i, k);
    }
  }

  lemma OnlyPieceAt(s: seq<Byte>, pieces: seq<Piece>, k: nat, n: nat)
    requires Increasing(Froms(pieces)) && k < |pieces|
    ensures Arrives(s, pieces, pieces[k].from, n) <==> Carries(s, pieces[k], pieces[k].from, n)
  {
    hide Blank;
    forall i | 0 <= i < |pieces| && pieces[i].from == pieces[k].from
      ensures i == k
    {
      assert Froms(pieces)[i] == Froms(pieces)[k];
    }
  }

  /** Records and events meet where a record begins with an event. */
  lemma RecordsMeetEvents<P(!new)>(c: Codec<P>, key: string, items: seq<Item<P>>, handed: seq<seq<Byte>>, cuts: Cuts)
    requires ValidCodec(c) && key != "" && OnlyEmittedSigned(c, key, items)
    requires Tiled(Output(c, key, items), handed, cuts)
    ensures Flatten(TrustedEach(c, key, handed)) == Flatten(ArrivedEach(c, key, items, cuts.pieces))
  {
    var s, indices := Output(c, key, items), EventIndices(items);
    var p, a := Froms(cuts.pieces), TrustedEach(c, key, handed);
    var q, b := EventOffsets(c, key, items), ArrivedEach(c, key, items, cuts.pieces);
    FromsAre(s, handed, cuts);
    EventOffsetsAre(c, key, items);
    hide Offset, EventIndices, ValidCodec, OnlyEmittedSigned, Tiled, TrustedRaw, Carries, Flatten;
    hide LineOf, Output, Arrives;
    forall i, j | 0 <= i < |p| && 0 <= j < |q| && p[i] == q[j]
      ensures a[i] == b[j]
    {
      RecordAtEvent(c, key, items, indices[j], cuts.pieces[i]);
      OnlyPieceAt(s, cuts.pieces, i, |LineOf(c, key, items[indices[j]].payload)|);
    }
    forall i | 0 <= i < |p| && p[i] !in q
      ensures a[i] == []
    {
      RecordElsewhere(c, key, items, cuts.pieces[i]);
    }
    forall j | 0 <= j < |q| && q[j] !in p
      ensures b[j] == []
    {
      NoPieceAt(s, cuts.pieces, q[j], |LineOf(c, key, items[indices[j]].payload)|);
    }
    MeetingJoin(p, a, q, b);
  }

  lemma NoPieceAt(s: seq<Byte>, pieces: seq<Piece>, a: nat, n: nat)
    requires a !in Froms(pieces)
    ensures !Arrives(s, pieces, a, n)
  {
    assert forall i :: 0 <= i < |pieces| ==> Froms(pieces)[i] == pieces[i].from;
  }

  lemma {:induction false} CallsTrusted<P>(c: Codec<P>, key: string, pipe: string, raws: seq<seq<Byte>>)
    ensures Second(TrustedCalls(c, key, CallsFor(pipe, raws))) == Flatten(TrustedEach(c, key, raws))
  {
    hide Trusted, RStrip;
    if raws != [] {
      var n := |raws| - 1;
      CallsTrusted(c, key, pipe, raws[..n]);
      assert CallsFor(pipe, raws)[..n] == CallsFor(pipe, raws[..n]);
      assert TrustedEach(c, key, raws)[..n] == TrustedEach(c, key, raws[..n]);
      var tagged, o := TrustedCalls(c, key, CallsFor(pipe, raws[..n])), TrustedRaw(c, key, raws[n]);
      assert Second(tagged + Tagged(pipe, o)) == Second(tagged) + AsSeq(o);
    }
  }

  lemma LineBeforePending(s: seq<Byte>, r: Reader, cuts: Cuts, a: nat, w: seq<Byte>)
    requires Located(s, r, cuts) && LineAt(s, a, w)
    ensures a < cuts.start
  {
    hide Located, NoBreak;
    PendingHasNoBreak(s, r, cuts, a + |w|);
  }

  /** The unterminated tail holds no emitted line, since each ends in a newline. */
  lemma TailUntrusted<P(!new)>(c: Codec<P>, key: string, items: seq<Item<P>>, r: Reader, cuts: Cuts)
    requires ValidCodec(c) && key != "" && OnlyEmittedSigned(c, key, items)
    requires Located(Output(c, key, items), r, cuts)
    ensures TrustedRaw(c, key, r.pending) == None
  {
    var s := Output(c, key, items);
    assert r.pending == s[cuts.start..|s|];
    hide Output, Offset, ValidCodec, TrustedRaw, LineOf, Located, LineAt;
    forall i | 0 <= i < |items| && items[i].Emit?
      ensures Offset(c, key, items, i) < cuts.start
    {
      EmissionAt(c, key, items, i);
      LineBeforePending(s, r, cuts, Offset(c, key, items, i), LineOf(c, key, items[i].payload));
    }
  }

  lemma TailAddsNothing<P>(c: Codec<P>, key: string, handed: seq<seq<Byte>>, tail: seq<Byte>)
    requires TrustedRaw(c, key, tail) == None
    ensures Flatten(TrustedEach(c, key, WithTail(handed, tail))) == Flatten(TrustedEach(c, key, handed))
  {
    hide TrustedRaw, IsBlank, Flatten;
    if !IsBlank(tail) {
      assert TrustedEach(c, key, handed + [tail]) == TrustedEach(c, key, handed) + [[]];
      FlattenOne(TrustedEach(c, key, handed), []);
    }
  }

  lemma EventsOf<P>(c: Codec<P>, key: string, clock: nat -> string, pipe: string, raws: seq<seq<Byte>>)
    ensures Payloads(HandleAll(c, key, clock, Initial(), CallsFor(pipe, raws)).events)
         == Flatten(TrustedEach(c, key, raws))
  {
    EventsAreTrusted(c, key, clock, Initial(), CallsFor(pipe, raws));
    CallsTrusted(c, key, pipe, raws);
    hide HandleAll, TrustedCalls, Flatten, CallsFor, TrustedEach;
  }

  /** With a shared non-empty key, however the worker's output is cut into reads, the events
      appended are exactly the payloads of those emitted events that arrive, in order. */
  lemma EventsEndToEnd<P(!new)>(c: Codec<P>, key: string, clock: nat -> string, pipe: string,
      items: seq<Item<P>>, chunks: seq<seq<Byte>>)
    requires ValidCodec(c) && key != "" && OnlyEmittedSigned(c, key, items)
    requires Flatten(chunks) == Output(c, key, items)
    ensures Payloads(HandleAll(c, key, clock, Initial(), CallsFor(pipe, Handed(chunks))).events)
         == Arrived(c, key, items, chunks)
  {
    hide FeedAll, CutsOf, TrustedRaw, IsBlank, HandleAll, ValidCodec, OnlyEmittedSigned, ArrivedEach, Output;
    hide Flatten, TrustedEach, TrustedCalls, Tiled, Payloads, CallsFor, WithTail;
    var r := FeedAll(chunks);
    EventsOf(c, key, clock, pipe, Handed(chunks));
    Placed(chunks);
    TailUntrusted(c, key, items, r, CutsOf(chunks));
    TailAddsNothing(c, key, r.handed, r.pending);
    RecordsMeetEvents(c, key, items, r.handed, CutsOf(chunks));
  }

  lemma LineArrives(chunks: seq<seq<Byte>>, s: seq<Byte>, a: nat, w: seq<Byte>)
    requires Flatten(chunks) == s && LineAt(s, a, w)
    ensures Arrives(s, CutsOf(chunks).pieces, a, |w|)
       <==> Starts(s, CutsOf(chunks).pieces, a) && NotSwallowed(s, CutsOf(chunks).pieces, a, |w|)
    ensures NoOverflow(chunks) ==> (Arrives(s, CutsOf(chunks).pieces, a, |w|) <==> Rest(s[..a]) == [])
  {
    hide Flatten, CutsOf, Arrives, Starts, NotSwallowed, NoOverflow, Rest;
    ArrivesExactly(chunks, a, |w|);
    if NoOverflow(chunks) {
      ArrivesAtLineStart(chunks, a, |w|);
    }
  }

  /** An event arrives if and only if a record starts with its line and no overflow swallows
      it; without overflow, if and only if what was written before it ends in a break. */
  lemma EventArrivesExactly<P(!new)>(c: Codec<P>, key: string, items: seq<Item<P>>, chunks: seq<seq<Byte>>, i: nat)
    requires ValidCodec(c) && key != "" && Flatten(chunks) == Output(c, key, items)
    requires i < |items| && items[i].Emit?
    ensures var s, pieces := Output(c, key, items), CutsOf(chunks).pieces;
      var a, n := Offset(c, key, items, i), |LineOf(c, key, items[i].payload)|;
      EventArrives(c, key, items, i, pieces) <==> Starts(s, pieces, a) && NotSwallowed(s, pieces, a, n)
    ensures NoOverflow(chunks) ==>
      (EventArrives(c, key, items, i, CutsOf(chunks).pieces) <==> Rest(Output(c, key, items[..i])) == [])
  {
    EmissionAt(c, key, items, i);
    OutputPrefix(c, key, items, i);
    assert Output(c, key, items)[..Offset(c, key, items, i)] == Output(c, key, items[..i]);
    hide Output, ValidCodec, LineOf, Flatten, CutsOf, Arrives, Starts, NotSwallowed, NoOverflow, Rest;
    hide LineAt, Offset;
    LineArrives(chunks, Output(c, key, items), Offset(c, key, items, i), LineOf(c, key, items[i].payload));
  }

  lemma {:induction false} OutputPrefix<P>(c: Codec<P>, key: string, items: seq<Item<P>>, i: nat)
    requires i <= |items|
    ensures Output(c, key, items[..i]) <= Output(c, key, items)
  {
    hide Written;
    if i == |items| {
      assert items[..i] == items;
    } else {
      OutputPrefix(c, key, items[..|items| - 1], i);
      assert items[..|items| - 1][..i] == items[..i];
    }
  }

  function Emitted<P>(items: seq<Item<P>>): seq<P> {
    var indices := EventIndices(items);
    seq(|indices|, j requires 0 <= j < |indices| => items[indices[j]].payload)
  }

  /** Every event arrives, or some are missing from the list. */
  lemma ArrivedAll<P>(c: Codec<P>, key: string, items: seq<Item<P>>, chunks: seq<seq<Byte>>)
    ensures Arrived(c, key, items, chunks) == Emitted(items)
      <==> forall i :: 0 <= i < |items| && items[i].Emit? ==> EventArrives(c, key, items, i, CutsOf(chunks).pieces)
  {
    var pieces, indices := CutsOf(chunks).pieces, EventIndices(items);
    EventIndicesAre(items);
    hide CutsOf, EventArrives, EventIndices, Flatten;
    JoinsAll(ArrivedEach(c, key, items, pieces), Emitted(items));
    forall i | 0 <= i < |items| && items[i].Emit?
      ensures exists j :: 0 <= j < |indices| && indices[j] == i
    {
    }
    assert forall j :: 0 <= j < |indices| ==>
      (ArrivedEach(c, key, items, pieces)[j] != [] <==> EventArrives(c, key, items, indices[j], pieces));
  }

  /** Without overflow, every emitted event is appended, in order, if and only if each was
      written at the start of a line. */
  lemma AllEventsArrive<P(!new)>(c: Codec<P>, key: string, clock: nat -> string, pipe: string,
      items: seq<Item<P>>, chunks: seq<seq<Byte>>)
    requires ValidCodec(c) && key != "" && OnlyEmittedSigned(c, key, items)
    requires NoOverflow(chunks) && Flatten(chunks) == Output(c, key, items)
    ensures Payloads(HandleAll(c, key, clock, Initial(), CallsFor(pipe, Handed(chunks))).events) == Emitted(items)
      <==> forall i :: 0 <= i < |items| && items[i].Emit? ==> Rest(Output(c, key, items[..i])) == []
  {
    EventsEndToEnd(c, key, clock, pipe, items, chunks);
    ArrivedAll(c, key, items, chunks);
    hide Output, ValidCodec, OnlyEmittedSigned, CutsOf, EventArrives, NoOverflow, Rest, HandleAll, Handed, Flatten;
    hide Arrived, Emitted, Starts, NotSwallowed, Offset, Payloads, CallsFor;
    forall i | 0 <= i < |items| && items[i].Emit?
      ensures EventArrives(c, key, items, i, CutsOf(chunks).pieces) <==> Rest(Output(c, key, items[..i])) == []
    {
      EventArrivesExactly(c, key, items, chunks, i);
    }
  }

  // ----- two ways to lose an event -----

  lemma OneRecord<P>(c: Codec<P>, key: string, clock: nat -> string, pipe: string, raw: seq<Byte>)
    requires TrustedRaw(c, key, raw) == None
    ensures Payloads(HandleAll(c, key, clock, Initial(), CallsFor(pipe, [raw])).events) == []
  {
    EventsOf(c, key, clock, pipe, [raw]);
    hide TrustedRaw, HandleAll;
    var none: seq<P> := [];
    FlattenOne([], none);
    assert TrustedEach(c, key, [raw]) == [] + [none];
  }

  lemma OutputOfTwo<P>(c: Codec<P>, key: string, x: Item<P>, y: Item<P>)
    ensures Output(c, key, [x, y]) == Written(c, key, x) + Written(c, key, y)
  {
    hide Written;
    assert [x, y][..1] == [x] && [x][..0] == [];
    assert Output(c, key, [x]) == Written(c, key, x);
  }

  /** Text that is not ended by a newline takes the event written after it with it. */
  lemma GluedEventLost<P(!new)>(c: Codec<P>, key: string, clock: nat -> string, pipe: string, text: seq<Byte>, p: P)
    requires ValidCodec(c) && key != "" && text != [] && NoBreak(text)
    requires |text| + |LineOf(c, key, p)| < PENDING_CAP
    ensures var chunk := Output(c, key, [Text(text), Emit(p)]);
      Payloads(HandleAll(c, key, clock, Initial(), CallsFor(pipe, Handed([chunk]))).events) == []
  {
    var w := LineOf(c, key, p);
    var items := [Text(text), Emit(p)];
    OutputOfTwo(c, key, Text(text), Emit(p));
    var chunk := Output(c, key, items);
    assert chunk == text + w + [LF];
    EmittedLineTrusted(c, key, p);
    RecordWithEmission(c, key, text, p, []);
    assert text + w + [] == text + w;
    hide ValidCodec, LineOf, Output, TrustedRaw, HandleAll, Payloads, CallsFor, Handed;
    OneLineHanded(text + w);
    OneRecord(c, key, clock, pipe, text + w);
  }

  /** An unfinished line that fits the buffer exactly takes an event on the next line with it,
      when its newline and the event come in one read. */
  lemma SwallowedEventLost<P(!new)>(c: Codec<P>, key: string, clock: nat -> string, pipe: string,
      earlier: seq<seq<Byte>>, p: P)
    requires ValidCodec(c) && key != ""
    requires NoBreak(Flatten(earlier)) && |Flatten(earlier)| == PENDING_CAP
    ensures var items := [Text(Flatten(earlier) + [LF]), Emit(p)];
      var last := [LF] + LineOf(c, key, p) + [LF];
      Flatten(earlier + [last]) == Output(c, key, items)
      && Payloads(HandleAll(c, key, clock, Initial(), CallsFor(pipe, Handed(earlier + [last]))).events) == []
  {
    var long, w := Flatten(earlier), LineOf(c, key, p);
    var items := [Text(long + [LF]), Emit(p)];
    OutputOfTwo(c, key, Text(long + [LF]), Emit(p));
    var last := [LF] + w + [LF];
    assert Output(c, key, items) == long + last;
    FlattenOne(earlier, last);
    FlushedTogether(earlier, last);
    RecordWithEmission(c, key, long + [LF], p, [LF]);
    assert long + [LF] + w + [LF] == long + last;
    hide FeedAll, TrustedRaw, ValidCodec, LineOf, HandleAll, Payloads, CallsFor, Flatten, Handed, Output;
    OneRecord(c, key, clock, pipe, long + last);
  }

  lemma FlushedTogether(earlier: seq<seq<Byte>>, last: seq<Byte>)
    requires NoBreak(Flatten(earlier)) && |Flatten(earlier)| <= PENDING_CAP < |Flatten(earlier) + last|
    ensures Handed(earlier + [last]) == [Flatten(earlier) + last]
  {
    UnbrokenReads(earlier);
    assert (earlier + [last])[..|earlier|] == earlier;
    var none: seq<seq<Byte>> := [];
    assert FeedAll(earlier + [last]) == Reader([], none + [Flatten(earlier) + last]);
    hide FeedAll, Flatten;
  }

  lemma {:induction false} UnbrokenReads(earlier: seq<seq<Byte>>)
    requires NoBreak(Flatten(earlier)) && |Flatten(earlier)| <= PENDING_CAP
    ensures FeedAll(earlier) == Reader(Flatten(earlier), [])
  {
    if earlier != [] {
      var before := earlier[..|earlier| - 1];
      assert Flatten(earlier)[..|Flatten(before)|] == Flatten(before);
      UnbrokenReads(before);
      OneLine(Flatten(earlier));
    }
  }
}
