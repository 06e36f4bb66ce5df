/** How a pipe's bytes become lines: splitting, the bounded pending buffer, and independence
    from how the bytes are cut into reads. */
module LineReader {
  import opened Bytes
  import opened Sequences

  const CR: Byte := 13
  const LF: Byte := 10
  const PENDING_CAP := 16 * 1024 * 1024
  const READ_SIZE := 65536

  predicate IsBreak(b: Byte) {
    b == CR || b == LF
  }

  predicate NoBreak(s: seq<Byte>) {
    forall i :: 0 <= i < |s| ==> !IsBreak(s[i])
  }

  // ----- splitting -----

  /** The lines that a break has ended. */
  function Lines(s: seq<Byte>): seq<seq<Byte>> {
    if s == [] then []
    else if IsBreak(s[|s| - 1]) then Lines(s[..|s| - 1]) + [Rest(s[..|s| - 1])]
    else Lines(s[..|s| - 1])
  }

  /** What follows the last break. */
  function Rest(s: seq<Byte>): (r: seq<Byte>)
    ensures |r| <= |s|
  {
    if s == [] then []
    else if IsBreak(s[|s| - 1]) then []
    else Rest(s[..|s| - 1]) + [s[|s| - 1]]
  }

  /** Every CR read as an LF. */
  function Unified(s: seq<Byte>): seq<Byte> {
    seq(|s|, i requires 0 <= i < |s| => if s[i] == CR then LF else s[i])
  }

  function Terminated(lines: seq<seq<Byte>>): seq<Byte> {
    if lines == [] then [] else Terminated(lines[..|lines| - 1]) + lines[|lines| - 1] + [LF]
  }

  ghost predicate BreakFree(lines: seq<seq<Byte>>) {
    forall i :: 0 <= i < |lines| ==> NoBreak(lines[i])
  }

  lemma {:induction false} PiecesBreakFree(s: seq<Byte>)
    ensures BreakFree(Lines(s)) && NoBreak(Rest(s))
  {
    if s != [] {
      PiecesBreakFree(s[..|s| - 1]);
    }
  }

  lemma UnifiedSnoc(t: seq<Byte>, b: Byte)
    ensures Unified(t + [b]) == Unified(t) + [if b == CR then LF else b]
  {
  }

  lemma TerminatedSnoc(lines: seq<seq<Byte>>, line: seq<Byte>)
    ensures Terminated(lines + [line]) == Terminated(lines) + line + [LF]
  {
    assert (lines + [line])[..|lines|] == lines;
  }

  /** The lines hold no break, and with one break after each they spell the stream. */
  lemma {:induction false} SplitSpells(s: seq<Byte>)
    ensures BreakFree(Lines(s)) && NoBreak(Rest(s))
    ensures Terminated(Lines(s)) + Rest(s) == Unified(s)
  {
    PiecesBreakFree(s);
    hide Terminated, Unified, BreakFree, NoBreak;
    if s == [] {
      assert Terminated([]) == [] && Unified([]) == [] by { NothingSpelled(); }
    } else {
      var t, b := s[..|s| - 1], s[|s| - 1];
      SplitSpells(t);
      UnifiedSnoc(t, b);
      TerminatedSnoc(Lines(t), Rest(t));
      assert s == t + [b];
    }
  }

  lemma NothingSpelled()
    ensures Terminated([]) == [] && Unified([]) == []
  {
  }

  /** No other lines and rest do that. */
  lemma {:induction false} SplitUnique(s: seq<Byte>, lines: seq<seq<Byte>>, rest: seq<Byte>)
    requires BreakFree(lines) && NoBreak(rest) && Terminated(lines) + rest == Unified(s)
    ensures lines == Lines(s) && rest == Rest(s)
    decreases |s|
  {
    var spelled := Terminated(lines) + rest;
    if s == [] {
      assert |spelled| == 0;
    } else {
      var t, b := s[..|s| - 1], s[|s| - 1];
      assert Unified(t) == Unified(s)[..|s| - 1] == spelled[..|s| - 1];
      assert spelled[|s| - 1] == if b == CR then LF else b;
      if rest != [] {
        assert spelled[|s| - 1] == rest[|rest| - 1];
        assert spelled[..|s| - 1] == Terminated(lines) + rest[..|rest| - 1];
        SplitUnique(t, lines, rest[..|rest| - 1]);
      } else {
        assert lines != [];
        var last := lines[|lines| - 1];
        assert spelled == Terminated(lines[..|lines| - 1]) + last + [LF];
        assert spelled[..|s| - 1] == Terminated(lines[..|lines| - 1]) + last;
        SplitUnique(t, lines[..|lines| - 1], last);
      }
    }
  }

  /** Splitting a stream in two steps, keeping the rest of the first as the start of the second. */
  lemma {:induction false} SplitContinues(a: seq<Byte>, b: seq<Byte>)
    ensures Lines(a + b) == Lines(a) + Lines(Rest(a) + b)
    ensures Rest(a + b) == Rest(Rest(a) + b)
  {
    if b == [] {
      assert a + b == a && Rest(a) + b == Rest(a);
      SplitSpells(a);
      OneLine(Rest(a));
    } else {
      var c, l := b[..|b| - 1], b[|b| - 1];
      SplitContinues(a, c);
      assert (a + b)[..|a + b| - 1] == a + c;
      assert (Rest(a) + b)[..|Rest(a) + b| - 1] == Rest(a) + c;
    }
  }

  lemma {:induction false} OneLine(s: seq<Byte>)
    requires NoBreak(s)
    ensures Lines(s) == [] && Rest(s) == s
  {
    if s != [] {
      OneLine(s[..|s| - 1]);
    }
  }

  // ----- the reader -----

  /** The undecoded remainder, and everything handed to the line handler so far. */
  datatype Reader = Reader(pending: seq<Byte>, handed: seq<seq<Byte>>)

  const Idle := Reader([], [])

  function Feed(r: Reader, chunk: seq<Byte>): Reader {
    var p := r.pending + chunk;
    if |p| > PENDING_CAP then Reader([], r.handed + [p])
    else Reader(Rest(p), r.handed + Lines(p))
  }

  function FeedAll(chunks: seq<seq<Byte>>): Reader {
    if chunks == [] then Idle else Feed(FeedAll(chunks[..|chunks| - 1]), chunks[|chunks| - 1])
  }

  /** ASCII whitespace, as `bytes.strip` removes it. */
  predicate IsBlank(s: seq<Byte>) {
    forall i :: 0 <= i < |s| ==> s[i] == 32 || 9 <= s[i] <= 13
  }

  /** The tail is handed on only if something in it is not whitespace. */
  function WithTail(handed: seq<seq<Byte>>, tail: seq<Byte>): seq<seq<Byte>> {
    if IsBlank(tail) then handed else handed + [tail]
  }

  function Handed(chunks: seq<seq<Byte>>): seq<seq<Byte>> {
    WithTail(FeedAll(chunks).handed, FeedAll(chunks).pending)
  }

  /** No read makes the unfinished line longer than the cap. */
  ghost predicate NoOverflow(chunks: seq<seq<Byte>>) {
    forall i :: 0 <= i < |chunks| ==> |Rest(Flatten(chunks[..i]))| + |chunks[i]| <= PENDING_CAP
  }

  lemma {:induction false} FeedWithoutOverflow(chunks: seq<seq<Byte>>)
    requires NoOverflow(chunks)
    ensures FeedAll(chunks) == Reader(Rest(Flatten(chunks)), Lines(Flatten(chunks)))
  {
    if chunks != [] {
      var before, last := chunks[..|chunks| - 1], chunks[|chunks| - 1];
      assert forall i :: 0 <= i < |before| ==> before[..i] == chunks[..i];
      FeedWithoutOverflow(before);
      SplitContinues(Flatten(before), last);
      assert |Rest(Flatten(chunks[..|chunks| - 1]))| + |chunks[|chunks| - 1]| <= PENDING_CAP;
    }
  }

  /** However the stream is cut into reads, the same lines are handed on, unless the pending
      buffer overflows. */
  lemma CutIndependent(chunks: seq<seq<Byte>>, stream: seq<Byte>)
    requires NoOverflow(chunks) && Flatten(chunks) == stream
    ensures Handed(chunks) == WithTail(Lines(stream), Rest(stream))
  {
    FeedWithoutOverflow(chunks);
  }

  /** After every read the buffer holds no break and at most the cap, however long the stream. */
  lemma PendingBounded(chunks: seq<seq<Byte>>)
    ensures NoBreak(FeedAll(chunks).pending) && |FeedAll(chunks).pending| <= PENDING_CAP
  {
    if chunks != [] {
      var p := FeedAll(chunks[..|chunks| - 1]).pending + chunks[|chunks| - 1];
      SplitSpells(p);
    }
  }

  // ----- overflow -----

  /** The bytes other than breaks. */
  function Content(s: seq<Byte>): seq<Byte> {
    if s == [] then []
    else Content(s[..|s| - 1]) + if IsBreak(s[|s| - 1]) then [] else [s[|s| - 1]]
  }

  lemma {:induction false} ContentAppend(a: seq<Byte>, b: seq<Byte>)
    ensures Content(a + b) == Content(a) + Content(b)
  {
    if b == [] {
      assert a + b == a;
    } else {
      ContentAppend(a, b[..|b| - 1]);
      assert (a + b)[..|a + b| - 1] == a + b[..|b| - 1];
    }
  }

  lemma {:induction false} BreakFreeContent(s: seq<Byte>)
    requires NoBreak(s)
    ensures Content(s) == s
  {
    if s != [] {
      BreakFreeContent(s[..|s| - 1]);
    }
  }

  lemma LineAndRest(s: seq<Byte>)
    requires s != []
    ensures var t, b := s[..|s| - 1], s[|s| - 1];
      if IsBreak(b) then Lines(s) == Lines(t) + [Rest(t)] && Rest(s) == []
      else Lines(s) == Lines(t) && Rest(s) == Rest(t) + [b]
  {
  }

  lemma {:induction false} FlattenLines(s: seq<Byte>)
    ensures Content(Flatten(Lines(s))) + Rest(s) == Content(s)
  {
    if s != [] {
      var t, b := s[..|s| - 1], s[|s| - 1];
      FlattenLines(t);
      LineAndRest(s);
      PiecesBreakFree(t);
      var known := Content(Flatten(Lines(t)));
      hide Lines, Rest, Flatten, NoBreak, BreakFree;
      if IsBreak(b) {
        FlattenOne(Lines(t), Rest(t));
        BreakFreeContent(Rest(t));
        hide Content;
        ContentAppend(Flatten(Lines(t)), Rest(t));
        assert known + Rest(t) + [] == known + Rest(t);
      } else {
        assert known + (Rest(t) + [b]) == known + Rest(t) + [b];
      }
    }
  }

  lemma FeedKeepsContent(r: Reader, chunk: seq<Byte>)
    requires NoBreak(r.pending)
    ensures Content(Flatten(Feed(r, chunk).handed)) + Feed(r, chunk).pending
         == Content(Flatten(r.handed)) + r.pending + Content(chunk)
  {
    hide Content, Flatten;
    var p := r.pending + chunk;
    BreakFreeContent(r.pending);
    ContentAppend(r.pending, chunk);
    if |p| > PENDING_CAP {
      FlattenOne(r.handed, p);
      ContentAppend(Flatten(r.handed), p);
    } else {
      FlattenAppend(r.handed, Lines(p));
      ContentAppend(Flatten(r.handed), Flatten(Lines(p)));
      FlattenLines(p);
      var a, b, c := Content(Flatten(r.handed)), Content(Flatten(Lines(p))), Rest(p);
      assert (a + b) + c == a + (b + c);
    }
  }

  /** With or without overflow, no byte but breaks is lost between the pipe and the handler. */
  lemma {:induction false} NoByteDropped(chunks: seq<seq<Byte>>)
    ensures Content(Flatten(FeedAll(chunks).handed)) + FeedAll(chunks).pending == Content(Flatten(chunks))
  {
    hide Content, Feed;
    if chunks == [] {
      FlattenLines([]);
    } else {
      var before, last := chunks[..|chunks| - 1], chunks[|chunks| - 1];
      NoByteDropped(before);
      PendingBounded(before);
      FeedKeepsContent(FeedAll(before), last);
      ContentAppend(Flatten(before), last);
    }
  }

  lemma BreakAfter(s: seq<Byte>)
    requires NoBreak(s)
    ensures Lines(s + [LF]) == [s] && Rest(s + [LF]) == []
  {
    assert (s + [LF])[..|s|] == s;
    OneLine(s);
  }

  lemma OneLineHanded(line: seq<Byte>)
    requires NoBreak(line) && |line| < PENDING_CAP
    ensures Handed([line + [LF]]) == [line]
  {
    BreakAfter(line);
    var none: seq<seq<Byte>> := [];
    assert [line + [LF]][..0] == none && [] + (line + [LF]) == line + [LF] && none + [line] == [line];
    assert FeedAll(none) == Idle;
  }

  /** An overflow does change the lines: a line longer than the cap, read in one piece and
      ended by the next read, comes out as itself and an extra empty line. */
  lemma OverflowAddsLine(long: seq<Byte>)
    requires NoBreak(long) && |long| > 16777216 && !IsBlank(long)
    ensures Handed([long, [LF]]) == [long, []] && Lines(Flatten([long, [LF]])) == [long]
  {
    hide Lines, Rest;
    assert [long, [LF]][..1] == [long] && [long][..0] == [];
    assert FeedAll([]) == Idle && [] + long == long;
    assert FeedAll([long]) == Reader([], [long]);
    assert [] + [LF] == [LF];
    BreakAfter(long);
    BreakAfter([]);
    assert Flatten([long]) == long;
  }

  /** Reads of the size the reader asks for, 64 KiB, never overflow the buffer of 16 MiB while every
      line leaves room for one. */
  lemma ShortLinesFit(chunks: seq<seq<Byte>>)
    requires forall i :: 0 <= i < |chunks| ==> |chunks[i]| <= READ_SIZE
    requires forall i :: 0 <= i < |Lines(Flatten(chunks))| ==> |Lines(Flatten(chunks))[i]| <= 16777216 - 65536
    requires |Rest(Flatten(chunks))| <= 16777216 - 65536
    ensures NoOverflow(chunks)
  {
    forall i | 0 <= i < |chunks|
      ensures |Rest(Flatten(chunks[..i]))| + |chunks[i]| <= PENDING_CAP
    {
      assert chunks == chunks[..i] + chunks[i..];
      FlattenAppend(chunks[..i], chunks[i..]);
      RestWithin(Flatten(chunks[..i]), Flatten(chunks[i..]), PENDING_CAP - READ_SIZE);
    }
  }

  lemma {:induction false} RestWithin(a: seq<Byte>, b: seq<Byte>, n: nat)
    requires forall i :: 0 <= i < |Lines(a + b)| ==> |Lines(a + b)[i]| <= n
    requires |Rest(a + b)| <= n
    ensures |Rest(a)| <= n
  {
    if b == [] {
      assert a + b == a;
    } else {
      var c := b[..|b| - 1];
      assert (a + b)[..|a + b| - 1] == a + c;
      if IsBreak(b[|b| - 1]) {
        assert Lines(a + b) == Lines(a + c) + [Rest(a + c)];
        assert Lines(a + b)[|Lines(a + c)|] == Rest(a + c);
        assert forall i :: 0 <= i < |Lines(a + c)| ==> Lines(a + b)[i] == Lines(a + c)[i];
      } else {
        assert Lines(a + b) == Lines(a + c);
      }
      RestWithin(a, c, n);
    }
  }
}
