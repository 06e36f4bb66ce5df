/** The authenticated event channel between a worker and the controller: signing, emission,
    line handling with bounded retention, and the reader loop over one pipe. */
module EventChannel {
  import opened Bytes
  import opened LineReader
  import opened Sequences
  import opened Wrappers

  const EVENT_PREFIX := "LTX_BENCH_EVENT "
  const MAX_RETAINED_LINES := 20000
  const MAX_RETAINED_BYTES := 16 * 1024 * 1024
  const MAX_LINE := 65536

  /** A parsed event line: the signature, if it is a string, and the payload object. */
  datatype Envelope<P> = Envelope(sig: Option<string>, payload: P)

  /** The text, JSON and digest operations the channel is built on. */
  datatype Codec<!P> = Codec(
    encode: string -> seq<Byte>,
    decode: seq<Byte> -> string,
    render: Envelope<P> -> string,
    parse: string -> Option<Envelope<P>>,
    canonical: P -> string,
    digest: (string, string) -> string,
    timeNs: P -> Option<int>)

  // ----- signing and emitting -----

  /** No key means no signature at all. */
  function Sign<P>(c: Codec<P>, text: string, key: string): Option<string> {
    if key == "" then None else Some(c.digest(text, key))
  }

  /** The line a worker prints for one event. */
  function EmitLine<P>(c: Codec<P>, key: string, payload: P): string {
    EVENT_PREFIX + c.render(Envelope(Sign(c, c.canonical(payload), key), payload))
  }

  // ----- handling one line -----

  function RStrip(s: string): (r: string)
    ensures r <= s
  {
    if s != [] && (s[|s| - 1] == '\r' || s[|s| - 1] == '\n') then RStrip(s[..|s| - 1]) else s
  }

  /** The payload of a line that is an event signed with the controller's key. */
  function Trusted<P>(c: Codec<P>, key: string, line: string): Option<P> {
    if !(EVENT_PREFIX <= line) then None
    else
      match c.parse(line[|EVENT_PREFIX|..])
      case None => None
      case Some(e) =>
        var expected := Sign(c, c.canonical(e.payload), key);
        if expected.None? || e.sig != expected then None else Some(e.payload)
  }

  datatype Event<P> = Event(payload: P, observed: string, workerTimeNs: Option<int>)

  /** A line passed on by the reader of one pipe. */
  datatype Call = Call(pipe: string, raw: seq<Byte>)

  /** The state both pipes' readers share. `ticks` counts clock readings. */
  datatype Shared<P> = Shared(ticks: nat, lines: seq<string>, retained: nat, events: seq<Event<P>>)

  function TextOf<P>(c: Codec<P>, call: Call): string {
    RStrip(c.decode(call.raw))
  }

  function LogRecord<P>(c: Codec<P>, stamp: string, call: Call): string {
    var line := TextOf(c, call);
    stamp + " " + call.pipe + " " + if |line| > MAX_LINE then line[..MAX_LINE] else line
  }

  function Handle<P>(c: Codec<P>, key: string, clock: nat -> string, st: Shared<P>, call: Call): Shared<P> {
    var stamp := clock(st.ticks);
    var record := LogRecord(c, stamp, call);
    var kept := if |st.lines| < MAX_RETAINED_LINES && st.retained + |record| <= MAX_RETAINED_BYTES
      then Shared(st.ticks + 1, st.lines + [record], st.retained + |record|, st.events)
      else st.(ticks := st.ticks + 1);
    match Trusted(c, key, TextOf(c, call))
    case None => kept
    case Some(p) => kept.(events := kept.events + [Event(p, stamp, c.timeNs(p))])
  }

  function HandleAll<P>(c: Codec<P>, key: string, clock: nat -> string, st: Shared<P>, calls: seq<Call>): Shared<P> {
    if calls == [] then st
    else Handle(c, key, clock, HandleAll(c, key, clock, st, calls[..|calls| - 1]), calls[|calls| - 1])
  }

  function Initial<P>(): Shared<P> {
    Shared(0, [], 0, [])
  }

  // ----- what is retained -----

  function TotalLength(lines: seq<string>): nat {
    if lines == [] then 0 else TotalLength(lines[..|lines| - 1]) + |lines[|lines| - 1]|
  }

  ghost predicate Bounded<P>(st: Shared<P>) {
    && |st.lines| <= MAX_RETAINED_LINES
    && st.retained <= MAX_RETAINED_BYTES
    && st.retained == TotalLength(st.lines)
  }

  /** Both caps hold, and the counter is the retained length, after any calls from any pipes. */
  lemma {:induction false} RetentionBounded<P>(c: Codec<P>, key: string, clock: nat -> string,
      st: Shared<P>, calls: seq<Call>)
    requires Bounded(st)
    ensures Bounded(HandleAll(c, key, clock, st, calls))
  {
    if calls != [] {
      var before := HandleAll(c, key, clock, st, calls[..|calls| - 1]);
      RetentionBounded(c, key, clock, st, calls[..|calls| - 1]);
      var record := LogRecord(c, clock(before.ticks), calls[|calls| - 1]);
      assert (before.lines + [record])[..|before.lines|] == before.lines;
    }
  }

  // ----- what is trusted -----

  function Payloads<P>(events: seq<Event<P>>): seq<P> {
    seq(|events|, i requires 0 <= i < |events| => events[i].payload)
  }

  function AsSeq<P>(o: Option<P>): seq<P> {
    match o case None => [] case Some(p) => [p]
  }

  function Tagged<P>(pipe: string, o: Option<P>): seq<(string, P)> {
    match o case None => [] case Some(p) => [(pipe, p)]
  }

  /** The trusted payloads among some calls, with the pipe each came from. */
  function TrustedCalls<P>(c: Codec<P>, key: string, calls: seq<Call>): seq<(string, P)> {
    if calls == [] then []
    else
      var last := calls[|calls| - 1];
      TrustedCalls(c, key, calls[..|calls| - 1]) + Tagged(last.pipe, Trusted(c, key, TextOf(c, last)))
  }

  function Second<P>(tagged: seq<(string, P)>): seq<P> {
    seq(|tagged|, i requires 0 <= i < |tagged| => tagged[i].1)
  }

  lemma HandledEvent<P>(c: Codec<P>, key: string, clock: nat -> string, st: Shared<P>, call: Call)
    ensures Payloads(Handle(c, key, clock, st, call).events)
         == Payloads(st.events) + AsSeq(Trusted(c, key, TextOf(c, call)))
  {
  }

  /** The events appended are the trusted payloads, in the order their lines were handled. */
  lemma {:induction false} EventsAreTrusted<P>(c: Codec<P>, key: string, clock: nat -> string,
      st: Shared<P>, calls: seq<Call>)
    ensures Payloads(HandleAll(c, key, clock, st, calls).events)
         == Payloads(st.events) + Second(TrustedCalls(c, key, calls))
  {
    hide Handle, Trusted;
    if calls != [] {
      var before, last := calls[..|calls| - 1], calls[|calls| - 1];
      EventsAreTrusted(c, key, clock, st, before);
      HandledEvent(c, key, clock, HandleAll(c, key, clock, st, before), last);
      var trusted := Trusted(c, key, TextOf(c, last));
      assert Second(TrustedCalls(c, key, before) + Tagged(last.pipe, trusted))
          == Second(TrustedCalls(c, key, before)) + AsSeq(trusted);
    }
  }

  /** An unauthenticated channel never yields an event. */
  lemma {:induction false} EmptyKeyTrustsNothing<P>(c: Codec<P>, clock: nat -> string, st: Shared<P>, calls: seq<Call>)
    ensures HandleAll(c, "", clock, st, calls).events == st.events
  {
    if calls != [] {
      EmptyKeyTrustsNothing(c, clock, st, calls[..|calls| - 1]);
    }
  }

  function CallsOf(pipe: string, calls: seq<Call>): seq<Call> {
    if calls == [] then []
    else
      var last := calls[|calls| - 1];
      CallsOf(pipe, calls[..|calls| - 1]) + if last.pipe == pipe then [last] else []
  }

  function From<P>(pipe: string, tagged: seq<(string, P)>): seq<(string, P)> {
    if tagged == [] then []
    else
      var last := tagged[|tagged| - 1];
      From(pipe, tagged[..|tagged| - 1]) + if last.0 == pipe then [last] else []
  }

  /** However the two readers' lines interleave, one pipe's events are those of its own lines. */
  lemma {:induction false} InterleavingIrrelevant<P>(c: Codec<P>, key: string, pipe: string, calls: seq<Call>)
    ensures From(pipe, TrustedCalls(c, key, calls)) == TrustedCalls(c, key, CallsOf(pipe, calls))
  {
    hide TextOf;
    if calls != [] {
      var before, last := calls[..|calls| - 1], calls[|calls| - 1];
      InterleavingIrrelevant(c, key, pipe, before);
      var all := TrustedCalls(c, key, calls);
      match Trusted(c, key, TextOf(c, last)) {
        case None =>
          assert all == TrustedCalls(c, key, before);
        case Some(p) =>
          assert all[..|all| - 1] == TrustedCalls(c, key, before);
      }
      if last.pipe == pipe {
        assert CallsOf(pipe, calls)[..|CallsOf(pipe, calls)| - 1] == CallsOf(pipe, before);
      } else {
        assert CallsOf(pipe, calls) == CallsOf(pipe, before);
      }
    }
  }

  function CallsFor(pipe: string, raws: seq<seq<Byte>>): seq<Call> {
    seq(|raws|, i requires 0 <= i < |raws| => Call(pipe, raws[i]))
  }

  // ----- the implementation -----

  /** What one turn of the reader's loop meets. */
  datatype Poll = Stopped | SelectFailed | NotReadable | ReadFailed | Data(chunk: seq<Byte>)

  /** The reads before the loop ends. */
  function Chunks(polls: seq<Poll>): seq<seq<Byte>> {
    if polls == [] then []
    else
      match polls[0]
      case NotReadable => Chunks(polls[1..])
      case Data(chunk) => if chunk == [] then [] else [chunk] + Chunks(polls[1..])
      case _ => []
  }

  /** The loop ends in an error return, which skips the unterminated tail. */
  predicate Aborted(polls: seq<Poll>) {
    if polls == [] then false
    else
      match polls[0]
      case NotReadable => Aborted(polls[1..])
      case Data(chunk) => chunk != [] && Aborted(polls[1..])
      case Stopped => false
      case _ => true
  }

  function ReadLines(polls: seq<Poll>): seq<seq<Byte>> {
    if Aborted(polls) then FeedAll(Chunks(polls)).handed else Handed(Chunks(polls))
  }

  class Channel<P> {
    const codec: Codec<P>
    const key: string
    const clock: nat -> string
    var ticks: nat
    var lines: seq<string>
    var retained: nat
    var events: seq<Event<P>>

    constructor (codec: Codec<P>, key: string, clock: nat -> string)
      ensures this.codec == codec && this.key == key && this.clock == clock
      ensures State() == Initial() && Bounded(State())
    {
      this.codec, this.key, this.clock := codec, key, clock;
      ticks, lines, retained, events := 0, [], 0, [];
    }

    function State(): Shared<P>
      reads this
    {
      Shared(ticks, lines, retained, events)
    }

    /** One line, as one atomic step. */
    method HandleLine(raw: seq<Byte>, name: string)
      requires Bounded(State())
      modifies this
      ensures State() == Handle(codec, key, clock, old(State()), Call(name, raw))
      ensures Bounded(State())
    {
      RetentionBounded(codec, key, clock, State(), [Call(name, raw)]);
      assert [Call(name, raw)][..0] == [];
      var stamp := clock(ticks);
      ticks := ticks + 1;
      var line := RStrip(codec.decode(raw));
      var record := stamp + " " + name + " " + if |line| > MAX_LINE then line[..MAX_LINE] else line;
      if |lines| < MAX_RETAINED_LINES && retained + |record| <= MAX_RETAINED_BYTES {
        lines := lines + [record];
        retained := retained + |record|;
      }
      if EVENT_PREFIX <= line {
        var parsed := codec.parse(line[|EVENT_PREFIX|..]);
        if parsed == None {
          return;
        }
        var expected := Sign(codec, codec.canonical(parsed.value.payload), key);
        if expected.None? || parsed.value.sig != expected {
          return;
        }
        events := events + [Event(parsed.value.payload, stamp, codec.timeNs(parsed.value.payload))];
      }
    }

    method HandleLines(raws: seq<seq<Byte>>, name: string)
      requires Bounded(State())
      modifies this
      ensures State() == HandleAll(codec, key, clock, old(State()), CallsFor(name, raws))
      ensures Bounded(State())
    {
      for i := 0 to |raws|
        invariant Bounded(State())
        invariant State() == HandleAll(codec, key, clock, old(State()), CallsFor(name, raws[..i]))
      {
        HandleLine(raws[i], name);
        CallsForSnoc(name, raws, i);
      }
      assert raws[..|raws|] == raws;
    }

    /** One successful read: flush an oversized buffer as one record, then split. */
    method Absorb(pending: seq<Byte>, chunk: seq<Byte>, name: string, ghost r: Reader, ghost st: Shared<P>)
      returns (left: seq<Byte>)
      requires Bounded(State()) && pending == r.pending
      requires State() == HandleAll(codec, key, clock, st, CallsFor(name, r.handed))
      modifies this
      ensures Bounded(State()) && left == Feed(r, chunk).pending
      ensures State() == HandleAll(codec, key, clock, st, CallsFor(name, Feed(r, chunk).handed))
    {
      left := pending + chunk;
      var complete := [];
      if |left| > PENDING_CAP {
        complete := [left];
        left := [];
      }
      complete, left := complete + Lines(left), Rest(left);
      assert Feed(r, chunk) == Reader(left, r.handed + complete);
      HandOver(complete, name, r.handed, st);
    }

    method HandOver(more: seq<seq<Byte>>, name: string, ghost handed: seq<seq<Byte>>, ghost st: Shared<P>)
      requires Bounded(State()) && State() == HandleAll(codec, key, clock, st, CallsFor(name, handed))
      modifies this
      ensures Bounded(State()) && State() == HandleAll(codec, key, clock, st, CallsFor(name, handed + more))
    {
      hide HandleAll, Bounded;
      HandleMore(codec, key, clock, st, CallsFor(name, handed), CallsFor(name, more));
      assert CallsFor(name, handed + more) == CallsFor(name, handed) + CallsFor(name, more);
      HandleLines(more, name);
    }

    /** The reader of one pipe, over whatever its polls return. */
    method ReadStream(polls: seq<Poll>, name: string)
      requires Bounded(State())
      modifies this
      ensures State() == HandleAll(codec, key, clock, old(State()), CallsFor(name, ReadLines(polls)))
      ensures Bounded(State())
    {
      hide Feed, Handle, Bounded, IsBlank;
      var pending: seq<Byte> := [];
      ghost var seen: seq<seq<Byte>> := [];
      assert CallsFor(name, []) == [];
      var i := 0;
      while i < |polls| && polls[i] != Stopped
        invariant 0 <= i <= |polls| && Bounded(State())
        invariant pending == FeedAll(seen).pending
        invariant State() == HandleAll(codec, key, clock, old(State()), CallsFor(name, FeedAll(seen).handed))
        invariant Chunks(polls) == seen + Chunks(polls[i..]) && Aborted(polls) == Aborted(polls[i..])
      {
        assert seen + [] == seen;
        assert polls[i..][1..] == polls[i + 1..];
        match polls[i] {
          case NotReadable =>
          case Data(chunk) =>
            if chunk == [] {
              break;
            }
            pending := Absorb(pending, chunk, name, FeedAll(seen), old(State()));
            assert (seen + [chunk])[..|seen|] == seen;
            seen := seen + [chunk];
          case SelectFailed =>
            return;
          case ReadFailed =>
            return;
          case Stopped =>
            assert false;
        }
        i := i + 1;
      }
      assert !Aborted(polls) && Chunks(polls) == seen;
      if !IsBlank(pending) {
        HandOver([pending], name, FeedAll(seen).handed, old(State()));
      }
    }
  }

  lemma CallsForSnoc(name: string, raws: seq<seq<Byte>>, i: nat)
    requires i < |raws|
    ensures CallsFor(name, raws[..i + 1]) != []
    ensures CallsFor(name, raws[..i + 1])[..i] == CallsFor(name, raws[..i])
    ensures CallsFor(name, raws[..i + 1])[i] == Call(name, raws[i])
  {
  }

  lemma {:induction false} HandleMore<P>(c: Codec<P>, key: string, clock: nat -> string,
      st: Shared<P>, a: seq<Call>, b: seq<Call>)
    ensures HandleAll(c, key, clock, st, a + b) == HandleAll(c, key, clock, HandleAll(c, key, clock, st, a), b)
  {
    if b == [] {
      assert a + b == a;
    } else {
      HandleMore(c, key, clock, st, a, b[..|b| - 1]);
      assert (a + b)[..|a + b| - 1] == a + b[..|b| - 1];
    }
  }
}
