/** Where in a pipe's stream the records that the reader hands on lie, and when one of its lines
    arrives as a record of its own. */
module RecordPlacement {
  import opened Bytes
  import opened LineReader
  import opened Sequences

  /** The bytes of the stream that a record handed on holds: from..to-1. A line is followed by
      its break; a record flushed by an overflow is not. */
  datatype Piece = Piece(from: nat, to: nat, flushed: bool)

  function After(p: Piece): nat {
    if p.flushed then p.to else p.to + 1
  }

  /** The pieces of the records handed on so far, and where the pending bytes begin. */
  datatype Cuts = Cuts(pieces: seq<Piece>, start: nat)

  function LinePieces(base: nat, s: seq<Byte>): seq<Piece> {
    if s == [] then []
    else
      var t := s[..|s| - 1];
      LinePieces(base, t) +
        if IsBreak(s[|s| - 1]) then [Piece(base + |t| - |Rest(t)|, base + |t|, false)] else []
  }

  /** Cutting the lines of p, which begins where the pending bytes do, off the stream. */
  function CutLines(c: Cuts, p: seq<Byte>): Cuts {
    Cuts(c.pieces + LinePieces(c.start, p), c.start + |p| - |Rest(p)|)
  }

  function CutAll(c: Cuts, p: seq<Byte>): Cuts {
    Cuts(c.pieces + [Piece(c.start, c.start + |p|, true)], c.start + |p|)
  }

  function CutsOf(chunks: seq<seq<Byte>>): Cuts {
    if chunks == [] then Cuts([], 0)
    else
      var c := CutsOf(chunks[..|chunks| - 1]);
      var p := FeedAll(chunks[..|chunks| - 1]).pending + chunks[|chunks| - 1];
      if |p| > PENDING_CAP then CutAll(c, p) else CutLines(c, p)
  }

  function NextStart(pieces: seq<Piece>, i: nat): nat
    requires i <= |pieces|
  {
    if i == 0 then 0 else After(pieces[i - 1])
  }

  ghost predicate Lies(s: seq<Byte>, p: Piece, raw: seq<Byte>) {
    && p.from <= p.to && After(p) <= |s| && raw == s[p.from..p.to]
    && if p.flushed then p.from < p.to else IsBreak(s[p.to]) && NoBreak(raw)
  }

  /** The pieces, with the break after each line, tile the stream up to `start`, and hold the
      records handed on. */
  ghost predicate Tiled(s: seq<Byte>, handed: seq<seq<Byte>>, c: Cuts) {
    && |c.pieces| == |handed| && c.start == NextStart(c.pieces, |c.pieces|) <= |s|
    && forall i :: 0 <= i < |c.pieces| ==>
         c.pieces[i].from == NextStart(c.pieces, i) && Lies(s, c.pieces[i], handed[i])
  }

  lemma LiesLonger(s: seq<Byte>, more: seq<Byte>, p: Piece, raw: seq<Byte>)
    requires Lies(s, p, raw)
    ensures Lies(s + more, p, raw)
  {
    assert (s + more)[p.from..p.to] == s[p.from..p.to];
  }

  lemma TiledLonger(s: seq<Byte>, more: seq<Byte>, handed: seq<seq<Byte>>, c: Cuts)
    requires Tiled(s, handed, c)
    ensures Tiled(s + more, handed, c)
  {
    hide Lies, NextStart;
    forall i | 0 <= i < |c.pieces|
      ensures Lies(s + more, c.pieces[i], handed[i])
    {
      LiesLonger(s, more, c.pieces[i], handed[i]);
    }
  }

  lemma TiledMore(s: seq<Byte>, handed: seq<seq<Byte>>, c: Cuts, p: Piece, raw: seq<Byte>)
    requires Tiled(s, handed, c) && p.from == c.start && Lies(s, p, raw) && After(p) <= |s|
    ensures Tiled(s, handed + [raw], Cuts(c.pieces + [p], After(p)))
  {
    hide Lies, After;
    var more := c.pieces + [p];
    assert forall i :: 0 <= i <= |c.pieces| ==> NextStart(more, i) == NextStart(c.pieces, i);
  }

  lemma {:induction false} RestIsSuffix(s: seq<Byte>)
    ensures Rest(s) == s[|s| - |Rest(s)|..]
  {
    if s != [] && !IsBreak(s[|s| - 1]) {
      RestIsSuffix(s[..|s| - 1]);
      assert s == s[..|s| - 1] + [s[|s| - 1]];
    }
  }

  /** The piece of the line that a break after q ends. */
  function LastLine(c: Cuts, q: seq<Byte>): (p: Piece)
    ensures p.from == CutLines(c, q).start && p.to == c.start + |q| && After(p) == c.start + |q| + 1
  {
    Piece(c.start + |q| - |Rest(q)|, c.start + |q|, false)
  }

  /** The line that a break b after q ends. */
  lemma LineLies(s: seq<Byte>, c: Cuts, q: seq<Byte>, b: Byte)
    requires c.start <= |s| && s[c.start..] == q + [b] && IsBreak(b)
    ensures Lies(s, LastLine(c, q), Rest(q))
  {
    RestIsSuffix(q);
    PiecesBreakFree(q);
    hide Rest, Lines, BreakFree, CutLines, NoBreak, IsBreak, Lies;
    SuffixLies(s, c.start, q, b, Rest(q), LastLine(c, q));
  }

  lemma SuffixLies(s: seq<Byte>, start: nat, q: seq<Byte>, b: Byte, r: seq<Byte>, p: Piece)
    requires start <= |s| && s[start..] == q + [b] && IsBreak(b)
    requires |r| <= |q| && r == q[|q| - |r|..] && NoBreak(r)
    requires !p.flushed && p.to == start + |q| && p.from == p.to - |r|
    ensures Lies(s, p, r)
  {
    assert s[p.to] == s[start..][|q|] == b;
    forall k | 0 <= k < |r|
      ensures r[k] == s[p.from + k]
    {
      assert r[k] == q[|q| - |r| + k] == s[start..][|q| - |r| + k];
    }
  }

  lemma SplitSnoc(c: Cuts, q: seq<Byte>, b: Byte)
    ensures IsBreak(b) ==>
      Lines(q + [b]) == Lines(q) + [Rest(q)]
      && CutLines(c, q + [b]) == Cuts(CutLines(c, q).pieces + [LastLine(c, q)], After(LastLine(c, q)))
    ensures !IsBreak(b) ==> Lines(q + [b]) == Lines(q) && CutLines(c, q + [b]) == CutLines(c, q)
  {
    var p := q + [b];
    assert p[..|p| - 1] == q && p[|p| - 1] == b;
    LineAndRest(p);
    hide Lines, Rest;
  }

  /** One more byte extends the tiling. */
  lemma ByteTiled(s: seq<Byte>, handed: seq<seq<Byte>>, c: Cuts, q: seq<Byte>, b: Byte)
    requires Tiled(s, handed + Lines(q), CutLines(c, q)) && |s| == c.start + |q| && s[c.start..] == q
    ensures Tiled(s + [b], handed + Lines(q + [b]), CutLines(c, q + [b]))
  {
    hide Lies, Tiled, Lines, Rest, CutLines, LastLine, After;
    SplitSnoc(c, q, b);
    TiledLonger(s, [b], handed + Lines(q), CutLines(c, q));
    if IsBreak(b) {
      assert (s + [b])[c.start..] == q + [b];
      LineLies(s + [b], c, q, b);
      TiledMore(s + [b], handed + Lines(q), CutLines(c, q), LastLine(c, q), Rest(q));
      assert handed + Lines(q + [b]) == handed + Lines(q) + [Rest(q)];
    }
  }

  /** Splitting what is pending together with a new chunk extends the tiling. */
  lemma {:induction false} LinesTiled(s: seq<Byte>, chunk: seq<Byte>, handed: seq<seq<Byte>>, c: Cuts,
      pending: seq<Byte>)
    requires Tiled(s, handed, c) && c.start <= |s| && pending == s[c.start..] && NoBreak(pending)
    ensures Tiled(s + chunk, handed + Lines(pending + chunk), CutLines(c, pending + chunk))
    decreases |chunk|
  {
    hide Lies, Tiled, NextStart, Lines, Rest, LinePieces, CutLines;
    if chunk == [] {
      assert pending + chunk == pending && s + chunk == s;
      NothingCut(c, pending);
      assert handed + [] == handed && |s| == c.start + |pending|;
    } else {
      var n := |chunk| - 1;
      LinesTiled(s, chunk[..n], handed, c, pending);
      assert (s + chunk[..n])[c.start..] == pending + chunk[..n];
      ByteTiled(s + chunk[..n], handed, c, pending + chunk[..n], chunk[n]);
      assert pending + chunk == pending + chunk[..n] + [chunk[n]];
      assert s + chunk == s + chunk[..n] + [chunk[n]];
    }
  }

  lemma {:induction false} NothingCut(c: Cuts, s: seq<Byte>)
    requires NoBreak(s)
    ensures CutLines(c, s) == Cuts(c.pieces, c.start) && Lines(s) == []
  {
    OneLine(s);
    NoPieces(c.start, s);
  }

  lemma {:induction false} NoPieces(base: nat, s: seq<Byte>)
    requires NoBreak(s)
    ensures LinePieces(base, s) == []
  {
    if s != [] {
      NoPieces(base, s[..|s| - 1]);
    }
  }

  ghost predicate Located(s: seq<Byte>, r: Reader, c: Cuts) {
    Tiled(s, r.handed, c) && c.start <= |s| && r.pending == s[c.start..] && NoBreak(r.pending)
  }

  lemma LinesLocated(s: seq<Byte>, r: Reader, c: Cuts, chunk: seq<Byte>)
    requires Located(s, r, c)
    ensures var p := r.pending + chunk;
      Located(s + chunk, Reader(Rest(p), r.handed + Lines(p)), CutLines(c, p))
  {
    hide Tiled, Rest, Lines, LinePieces;
    var p := r.pending + chunk;
    LinesTiled(s, chunk, r.handed, c, r.pending);
    RestIsSuffix(p);
    PiecesBreakFree(p);
    assert |s + chunk| == c.start + |p| && (s + chunk)[c.start..] == p;
    assert (s + chunk)[c.start + |p| - |Rest(p)|..] == (s + chunk)[c.start..][|p| - |Rest(p)|..];
  }

  lemma FlushLocated(s: seq<Byte>, r: Reader, c: Cuts, chunk: seq<Byte>)
    requires Located(s, r, c) && |r.pending + chunk| > 0
    ensures var p := r.pending + chunk;
      Located(s + chunk, Reader([], r.handed + [p]), CutAll(c, p))
  {
    hide Tiled;
    var p := r.pending + chunk;
    var piece := Piece(c.start, c.start + |p|, true);
    assert |s + chunk| == c.start + |p| && (s + chunk)[c.start..c.start + |p|] == p;
    TiledLonger(s, chunk, r.handed, c);
    TiledMore(s + chunk, r.handed, c, piece, p);
  }

  /** Every record handed on is the stretch of the stream its piece says, the pieces follow
      one another without a gap but the breaks, and what is pending is all that follows. */
  lemma {:induction false} Placed(chunks: seq<seq<Byte>>)
    ensures Located(Flatten(chunks), FeedAll(chunks), CutsOf(chunks))
  {
    if chunks != [] {
      hide Located, Rest, Lines, CutLines, CutAll;
      var before, chunk := chunks[..|chunks| - 1], chunks[|chunks| - 1];
      Placed(before);
      if |FeedAll(before).pending + chunk| > PENDING_CAP {
        FlushLocated(Flatten(before), FeedAll(before), CutsOf(before), chunk);
      } else {
        LinesLocated(Flatten(before), FeedAll(before), CutsOf(before), chunk);
      }
    }
  }

  lemma PieceEnds(s: seq<Byte>, p: Piece, raw: seq<Byte>)
    requires Lies(s, p, raw)
    ensures p.from <= p.to <= After(p) <= |s|
  {
  }

  lemma {:induction false} PiecesInOrder(s: seq<Byte>, handed: seq<seq<Byte>>, c: Cuts, i: nat, j: nat)
    requires Tiled(s, handed, c) && i < j <= |c.pieces|
    ensures After(c.pieces[i]) <= NextStart(c.pieces, j)
  {
    hide Lies, After;
    if i + 1 < j {
      PiecesInOrder(s, handed, c, i, j - 1);
      PieceEnds(s, c.pieces[j - 1], handed[j - 1]);
    }
  }

  // ----- when a stretch of the stream arrives as a record of its own -----

  /** What JSON takes for white space. */
  predicate Blank(s: seq<Byte>) {
    forall i :: 0 <= i < |s| ==> s[i] in {9, 10, 13, 32}
  }

  /** The record starts where the stretch of n bytes does, and holds it all and nothing else
      but white space after it. */
  predicate Carries(s: seq<Byte>, p: Piece, a: nat, n: nat) {
    p.from == a && a + n <= p.to <= |s| && Blank(s[a + n..p.to])
  }

  predicate Arrives(s: seq<Byte>, pieces: seq<Piece>, a: nat, n: nat) {
    exists i :: 0 <= i < |pieces| && Carries(s, pieces[i], a, n)
  }

  /** Offset a is where the stream begins, follows a break, or is where an overflow's flush
      ended. */
  ghost predicate Starts(s: seq<Byte>, pieces: seq<Piece>, a: nat) {
    a == 0 || (a <= |s| && IsBreak(s[a - 1]))
    || exists i :: 0 <= i < |pieces| && pieces[i].flushed && pieces[i].to == a
  }

  predicate Meets(p: Piece, a: nat, n: nat) {
    p.from < a + n && a < p.to
  }

  /** No overflow flushes a byte of the n bytes at a, other than all of them with only white
      space after. */
  ghost predicate NotSwallowed(s: seq<Byte>, pieces: seq<Piece>, a: nat, n: nat) {
    forall i :: 0 <= i < |pieces| && pieces[i].flushed && Meets(pieces[i], a, n) ==> Carries(s, pieces[i], a, n)
  }

  lemma LineFacts(s: seq<Byte>, p: Piece, raw: seq<Byte>)
    requires Lies(s, p, raw) && !p.flushed
    ensures p.from <= p.to < |s| && IsBreak(s[p.to])
    ensures forall k :: p.from <= k < p.to ==> !IsBreak(s[k])
  {
    forall k | p.from <= k < p.to
      ensures !IsBreak(s[k])
    {
      assert raw[k - p.from] == s[k];
    }
  }

  /** A piece starts where the one before it, if any, was flushed or where a break was. */
  lemma PieceStarts(s: seq<Byte>, handed: seq<seq<Byte>>, c: Cuts, i: nat)
    requires Tiled(s, handed, c) && i < |c.pieces|
    ensures Starts(s, c.pieces, c.pieces[i].from)
  {
    hide Lies;
    if i > 0 && !c.pieces[i - 1].flushed {
      LineFacts(s, c.pieces[i - 1], handed[i - 1]);
    }
  }

  /** No two pieces share a byte. */
  lemma PiecesApart(s: seq<Byte>, handed: seq<seq<Byte>>, c: Cuts, i: nat, j: nat)
    requires Tiled(s, handed, c) && i < |c.pieces| && j < |c.pieces| && i != j
    ensures After(c.pieces[i]) <= c.pieces[j].from || After(c.pieces[j]) <= c.pieces[i].from
  {
    if i < j {
      PiecesInOrder(s, handed, c, i, j);
    } else {
      PiecesInOrder(s, handed, c, j, i);
    }
  }

  lemma CarriedAlone(s: seq<Byte>, handed: seq<seq<Byte>>, c: Cuts, i: nat, a: nat, n: nat)
    requires Tiled(s, handed, c) && i < |c.pieces| && Carries(s, c.pieces[i], a, n)
    ensures NotSwallowed(s, c.pieces, a, n)
  {
    forall j | 0 <= j < |c.pieces| && c.pieces[j].flushed && Meets(c.pieces[j], a, n)
      ensures j == i
    {
      if j != i {
        PiecesApart(s, handed, c, i, j);
        assert false;
      }
    }
  }

  /** The piece that holds a byte, or the break after it. */
  lemma {:induction false} PieceAt(s: seq<Byte>, handed: seq<seq<Byte>>, c: Cuts, a: nat, k: nat) returns (i: nat)
    requires Tiled(s, handed, c) && k <= |c.pieces| && a < NextStart(c.pieces, k)
    ensures i < k && c.pieces[i].from <= a < After(c.pieces[i])
  {
    hide Lies, After;
    if c.pieces[k - 1].from <= a {
      i := k - 1;
    } else {
      i := PieceAt(s, handed, c, a, k - 1);
    }
  }

  lemma LineStartsThere(s: seq<Byte>, handed: seq<seq<Byte>>, c: Cuts, i: nat, a: nat)
    requires Tiled(s, handed, c) && i < |c.pieces| && !c.pieces[i].flushed
    requires c.pieces[i].from <= a < After(c.pieces[i]) && Starts(s, c.pieces, a)
    ensures c.pieces[i].from == a
  {
    hide Lies;
    LineFacts(s, c.pieces[i], handed[i]);
    if c.pieces[i].from < a {
      assert !IsBreak(s[a - 1]);
      var j :| 0 <= j < |c.pieces| && c.pieces[j].flushed && c.pieces[j].to == a;
      PiecesApart(s, handed, c, i, j);
      FlushFacts(s, c.pieces[j], handed[j]);
      assert false;
    }
  }

  lemma FlushFacts(s: seq<Byte>, p: Piece, raw: seq<Byte>)
    requires Lies(s, p, raw) && p.flushed
    ensures p.from < p.to <= |s|
  {
  }

  lemma LineEndsThere(s: seq<Byte>, p: Piece, raw: seq<Byte>, a: nat, n: nat)
    requires Lies(s, p, raw) && !p.flushed && p.from == a
    requires a + n < |s| && NoBreak(s[a..a + n]) && IsBreak(s[a + n])
    ensures Carries(s, p, a, n)
  {
    LineFacts(s, p, raw);
    hide Lies;
    assert forall k :: a <= k < a + n ==> s[k] == s[a..a + n][k - a];
  }

  lemma PendingHasNoBreak(s: seq<Byte>, r: Reader, c: Cuts, k: nat)
    requires Located(s, r, c) && k < |s| && IsBreak(s[k])
    ensures k < c.start
  {
    hide Tiled;
    forall j | c.start <= j < |s|
      ensures !IsBreak(s[j])
    {
      assert r.pending[j - c.start] == s[j];
    }
  }

  lemma LineCarries(s: seq<Byte>, handed: seq<seq<Byte>>, c: Cuts, i: nat, a: nat, n: nat)
    requires Tiled(s, handed, c) && i < |c.pieces| && !c.pieces[i].flushed
    requires c.pieces[i].from <= a < After(c.pieces[i]) && Starts(s, c.pieces, a)
    requires a + n < |s| && NoBreak(s[a..a + n]) && IsBreak(s[a + n])
    ensures Carries(s, c.pieces[i], a, n)
  {
    assert Lies(s, c.pieces[i], handed[i]);
    hide Lies, NoBreak, IsBreak, After, Starts, Tiled, NextStart, Carries;
    LineStartsThere(s, handed, c, i, a);
    LineEndsThere(s, c.pieces[i], handed[i], a, n);
  }

  lemma StartedCarries(s: seq<Byte>, r: Reader, c: Cuts, a: nat, n: nat)
    requires Located(s, r, c) && n > 0 && a + n < |s| && NoBreak(s[a..a + n]) && IsBreak(s[a + n])
    requires Starts(s, c.pieces, a) && NotSwallowed(s, c.pieces, a, n)
    ensures Arrives(s, c.pieces, a, n)
  {
    hide Located, Tiled, Starts, Lies, Carries, NoBreak, IsBreak;
    PendingHasNoBreak(s, r, c, a + n);
    var i := PieceOf(s, r, c, a);
    if c.pieces[i].flushed {
      assert Meets(c.pieces[i], a, n);
    } else {
      LineCarries(s, r.handed, c, i, a, n);
    }
    assert Carries(s, c.pieces[i], a, n);
  }

  lemma PieceOf(s: seq<Byte>, r: Reader, c: Cuts, a: nat) returns (i: nat)
    requires Located(s, r, c) && a < c.start
    ensures Tiled(s, r.handed, c) && i < |c.pieces| && c.pieces[i].from <= a < After(c.pieces[i])
  {
    hide Lies;
    i := PieceAt(s, r.handed, c, a, |c.pieces|);
  }

  /** A line of the stream arrives as a record of its own if and only if a record starts with
      it and no overflow swallows it. */
  lemma ArrivesExactly(chunks: seq<seq<Byte>>, a: nat, n: nat)
    requires n > 0 && a + n < |Flatten(chunks)|
    requires NoBreak(Flatten(chunks)[a..a + n]) && IsBreak(Flatten(chunks)[a + n])
    ensures var s, pieces := Flatten(chunks), CutsOf(chunks).pieces;
      Arrives(s, pieces, a, n) <==> Starts(s, pieces, a) && NotSwallowed(s, pieces, a, n)
  {
    var s, c, handed := Flatten(chunks), CutsOf(chunks), FeedAll(chunks).handed;
    Placed(chunks);
    hide Flatten, CutsOf, FeedAll, Blank, Starts, NotSwallowed, Lies;
    if Arrives(s, c.pieces, a, n) {
      var i :| 0 <= i < |c.pieces| && Carries(s, c.pieces[i], a, n);
      PieceStarts(s, handed, c, i);
      CarriedAlone(s, handed, c, i, a, n);
    }
    if Starts(s, c.pieces, a) && NotSwallowed(s, c.pieces, a, n) {
      StartedCarries(s, FeedAll(chunks), c, a, n);
    }
  }

  /** Without an overflow, a line arrives on its own if and only if nothing unfinished is in
      front of it. */
  lemma ArrivesAtLineStart(chunks: seq<seq<Byte>>, a: nat, n: nat)
    requires n > 0 && a + n < |Flatten(chunks)| && NoOverflow(chunks)
    requires NoBreak(Flatten(chunks)[a..a + n]) && IsBreak(Flatten(chunks)[a + n])
    ensures Arrives(Flatten(chunks), CutsOf(chunks).pieces, a, n) <==> Rest(Flatten(chunks)[..a]) == []
  {
    ArrivesExactly(chunks, a, n);
    NothingFlushed(chunks);
    hide Flatten, CutsOf, FeedAll, Arrives, NoOverflow;
    assert a > 0 ==> Flatten(chunks)[..a][a - 1] == Flatten(chunks)[a - 1];
  }

  lemma {:induction false} NothingFlushed(chunks: seq<seq<Byte>>)
    requires NoOverflow(chunks)
    ensures forall i :: 0 <= i < |CutsOf(chunks).pieces| ==> !CutsOf(chunks).pieces[i].flushed
  {
    if chunks != [] {
      var before := chunks[..|chunks| - 1];
      assert forall i :: 0 <= i < |before| ==> before[..i] == chunks[..i];
      NothingFlushed(before);
      FeedWithoutOverflow(before);
      LinesUnflushed(CutsOf(before).start, FeedAll(before).pending + chunks[|chunks| - 1]);
    }
  }

  lemma {:induction false} LinesUnflushed(base: nat, s: seq<Byte>)
    ensures forall i :: 0 <= i < |LinePieces(base, s)| ==> !LinePieces(base, s)[i].flushed
  {
    if s != [] {
      LinesUnflushed(base, s[..|s| - 1]);
    }
  }
}
