/** What the reader of one pipe hands on, in terms of what its polls returned, and which events
    come out of it. */
module PipeReading {
  import opened Bytes
  import opened EventChannel
  import opened EventDelivery
  import opened LineReader
  import opened RecordPlacement
  import opened Sequences
  import opened Wrappers

  /** A turn after which the loop goes on. */
  predicate GoesOn(p: Poll) {
    p.NotReadable? || (p.Data? && p.chunk != [])
  }

  predicate Reading(polls: seq<Poll>) {
    forall i :: 0 <= i < |polls| ==> GoesOn(polls[i])
  }

  /** The pipe's end, or the request to stop. */
  predicate EndsCleanly(p: Poll) {
    p == Stopped || p == Data([])
  }

  predicate EndsInError(p: Poll) {
    p == SelectFailed || p == ReadFailed
  }

  /** The number of turns before the one that ends the loop. */
  function Turns(polls: seq<Poll>): (n: nat)
    ensures n <= |polls| && Reading(polls[..n])
    ensures n < |polls| ==> EndsCleanly(polls[n]) || EndsInError(polls[n])
  {
    if polls == [] || !GoesOn(polls[0]) then 0
    else
      var n := Turns(polls[1..]);
      assert polls[..n + 1] == [polls[0]] + polls[1..][..n];
      n + 1
  }

  /** The loop ended in an error. */
  predicate Failed(polls: seq<Poll>) {
    Turns(polls) < |polls| && EndsInError(polls[Turns(polls)])
  }

  /** The bytes of the polls that returned any, read by read. */
  function Reads(polls: seq<Poll>): seq<seq<Byte>> {
    if polls == [] then []
    else
      var last := polls[|polls| - 1];
      Reads(polls[..|polls| - 1]) + if last.Data? then [last.chunk] else []
  }

  /** Everything read from the pipe before the loop ended. */
  function ReadsOf(polls: seq<Poll>): seq<seq<Byte>> {
    Reads(polls[..Turns(polls)])
  }

  lemma {:induction false} ReadsFirst(p: Poll, polls: seq<Poll>)
    ensures Reads([p] + polls) == (if p.Data? then [p.chunk] else []) + Reads(polls)
  {
    if polls == [] {
      assert [p] + polls == [p] && [p][..0] == [];
    } else {
      var n := |polls| - 1;
      assert ([p] + polls)[..n + 1] == [p] + polls[..n];
      ReadsFirst(p, polls[..n]);
    }
  }

  lemma {:induction false} TurnsAre(body: seq<Poll>, rest: seq<Poll>)
    requires Reading(body) && (rest == [] || !GoesOn(rest[0]))
    ensures Turns(body + rest) == |body| && (body + rest)[..|body|] == body
  {
    if body == [] {
      assert body + rest == rest;
    } else {
      assert (body + rest)[1..] == body[1..] + rest;
      TurnsAre(body[1..], rest);
    }
  }

  lemma {:induction false} ChunksAreReads(polls: seq<Poll>)
    ensures Chunks(polls) == ReadsOf(polls) && (Aborted(polls) <==> Failed(polls))
  {
    if polls != [] && GoesOn(polls[0]) {
      ChunksAreReads(polls[1..]);
      var n := Turns(polls[1..]);
      assert polls[..n + 1] == [polls[0]] + polls[1..][..n];
      ReadsFirst(polls[0], polls[1..][..n]);
    }
  }

  /** Polls that end at the pipe's end or at the request to stop hand on exactly the records of
      the bytes read, tail included; whatever polls would come after that add nothing. */
  lemma ReadsToTheEnd(body: seq<Poll>, rest: seq<Poll>)
    requires Reading(body) && (rest == [] || EndsCleanly(rest[0]))
    ensures ReadLines(body + rest) == Handed(Reads(body))
  {
    TurnsAre(body, rest);
    ChunksAreReads(body + rest);
  }

  /** Polls that end in an error hand on the same records but for the unterminated tail. */
  lemma ReadsToAnError(body: seq<Poll>, rest: seq<Poll>)
    requires Reading(body) && rest != [] && EndsInError(rest[0])
    ensures ReadLines(body + rest) == FeedAll(Reads(body)).handed
  {
    TurnsAre(body, rest);
    ChunksAreReads(body + rest);
  }

  lemma {:induction false} ReadLinesCases(polls: seq<Poll>)
    ensures ReadLines(polls) == if Failed(polls) then FeedAll(ReadsOf(polls)).handed else Handed(ReadsOf(polls))
  {
    ChunksAreReads(polls);
  }

  /** A poll with nothing to read changes nothing, wherever it comes. */
  lemma {:induction false} UnreadablePollsIrrelevant(before: seq<Poll>, after: seq<Poll>)
    ensures ReadLines(before + [NotReadable] + after) == ReadLines(before + after)
  {
    UnreadableSkipped(before, after);
  }

  lemma {:induction false} UnreadableSkipped(before: seq<Poll>, after: seq<Poll>)
    ensures Chunks(before + [NotReadable] + after) == Chunks(before + after)
    ensures Aborted(before + [NotReadable] + after) == Aborted(before + after)
  {
    var with, without := before + [NotReadable] + after, before + after;
    if before == [] {
      assert with[1..] == after && without == after;
    } else {
      assert with[1..] == before[1..] + [NotReadable] + after && without[1..] == before[1..] + after;
      UnreadableSkipped(before[1..], after);
    }
  }

  // ----- what is missing -----

  /** ASCII white space: the space and the codes 9 to 13. */
  predicate IsSpace(b: Byte) {
    b == 9 || b == 10 || b == 11 || b == 12 || b == 13 || b == 32
  }

  predicate AllSpace(s: seq<Byte>) {
    forall i :: 0 <= i < |s| ==> IsSpace(s[i])
  }

  /** The bytes after the last record, which are never handed on. */
  function Missing(polls: seq<Poll>): seq<Byte> {
    var tail := FeedAll(ReadsOf(polls)).pending;
    if Failed(polls) || AllSpace(tail) then tail else []
  }

  /** No byte but breaks is missing from the records, in order, except a tail: of white space,
      or, when the loop ended in an error, the whole unterminated line. A tail with anything but
      white space in it is the last record unless the loop ended in an error. */
  lemma NoByteUnread(polls: seq<Poll>)
    ensures Content(Flatten(ReadLines(polls))) + Missing(polls) == Content(Flatten(ReadsOf(polls)))
    ensures Failed(polls) || AllSpace(Missing(polls))
    ensures var tail := FeedAll(ReadsOf(polls)).pending;
      !Failed(polls) && !AllSpace(tail) ==> ReadLines(polls) == FeedAll(ReadsOf(polls)).handed + [tail]
  {
    var r := FeedAll(ReadsOf(polls));
    LinesAndTail(polls);
    NoByteDropped(ReadsOf(polls));
    PendingBounded(ReadsOf(polls));
    assert AllSpace([]);
    hide FeedAll, Content, Flatten, ReadsOf, ReadLines, Failed, AllSpace, NoBreak;
    if !Failed(polls) && !AllSpace(r.pending) {
      TailContent(r);
      assert Content(Flatten(ReadLines(polls))) + [] == Content(Flatten(ReadLines(polls)));
    }
  }

  lemma LinesAndTail(polls: seq<Poll>)
    ensures var r := FeedAll(ReadsOf(polls));
      ReadLines(polls) == if Failed(polls) || AllSpace(r.pending) then r.handed else r.handed + [r.pending]
  {
    ReadLinesCases(polls);
    hide FeedAll, ReadsOf, ReadLines, Failed;
    var tail := FeedAll(ReadsOf(polls)).pending;
    assert IsBlank(tail) <==> AllSpace(tail);
  }

  lemma TailContent(r: Reader)
    requires NoBreak(r.pending)
    ensures Content(Flatten(r.handed + [r.pending])) == Content(Flatten(r.handed)) + r.pending
  {
    FlattenOne(r.handed, r.pending);
    ContentAppend(Flatten(r.handed), r.pending);
    BreakFreeContent(r.pending);
  }

  /** Without overflow the records are the lines of the bytes read, and after a clean end what
      follows the last break, unless that is only white space. */
  lemma RecordsOfBytesRead(polls: seq<Poll>, stream: seq<Byte>)
    requires NoOverflow(ReadsOf(polls)) && Flatten(ReadsOf(polls)) == stream
    ensures ReadLines(polls) == Lines(stream) + if Failed(polls) || AllSpace(Rest(stream)) then [] else [Rest(stream)]
  {
    LinesAndTail(polls);
    FeedWithoutOverflow(ReadsOf(polls));
  }

  // ----- which events come out -----

  /** With a shared non-empty key, whatever the polls return and however the loop ends, the
      events appended are exactly the payloads of those emitted events that arrive in the bytes
      read, in order. */
  lemma StreamDelivers<P(!new)>(c: Codec<P>, key: string, clock: nat -> string, pipe: string,
      items: seq<Item<P>>, polls: seq<Poll>)
    requires ValidCodec(c) && key != "" && OnlyEmittedSigned(c, key, items)
    requires Flatten(ReadsOf(polls)) == Output(c, key, items)
    ensures Payloads(HandleAll(c, key, clock, Initial(), CallsFor(pipe, ReadLines(polls))).events)
         == Arrived(c, key, items, ReadsOf(polls))
  {
    ReadLinesCases(polls);
    hide FeedAll, ReadsOf, ReadLines, Failed, ValidCodec, OnlyEmittedSigned, Output, HandleAll, Flatten, Handed;
    hide Payloads, CallsFor, Arrived;
    if Failed(polls) {
      DeliveredWithoutTail(c, key, clock, pipe, items, ReadsOf(polls));
    } else {
      EventsEndToEnd(c, key, clock, pipe, items, ReadsOf(polls));
    }
  }

  lemma DeliveredWithoutTail<P(!new)>(c: Codec<P>, key: string, clock: nat -> string, pipe: string,
      items: seq<Item<P>>, chunks: seq<seq<Byte>>)
    requires ValidCodec(c) && key != "" && OnlyEmittedSigned(c, key, items)
    requires Flatten(chunks) == Output(c, key, items)
    ensures Payloads(HandleAll(c, key, clock, Initial(), CallsFor(pipe, FeedAll(chunks).handed)).events)
         == Arrived(c, key, items, chunks)
  {
    EventsEndToEnd(c, key, clock, pipe, items, chunks);
    EventsOf(c, key, clock, pipe, FeedAll(chunks).handed);
    EventsOf(c, key, clock, pipe, Handed(chunks));
    Placed(chunks);
    hide FeedAll, CutsOf, TrustedRaw, IsBlank, HandleAll, ValidCodec, OnlyEmittedSigned, Output;
    hide Flatten, TrustedEach, Tiled, Payloads, CallsFor, WithTail, Arrived;
    TailUntrusted(c, key, items, FeedAll(chunks), CutsOf(chunks));
    TailAddsNothing(c, key, FeedAll(chunks).handed, FeedAll(chunks).pending);
  }
}
