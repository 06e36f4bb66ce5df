/** What one handled line leaves behind: its log record, whether it is kept, and its event. */
module LogRetention {
  import opened Bytes
  import opened EventChannel
  import opened LineReader
  import opened Sequences
  import opened Wrappers

  // ----- the record -----

  /** Trailing line breaks are removed, and nothing else. */
  lemma {:induction false} RStripExactly(s: string)
    ensures RStrip(s) == s[..|RStrip(s)|]
    ensures forall i :: |RStrip(s)| <= i < |s| ==> s[i] == '\r' || s[i] == '\n'
    ensures RStrip(s) != "" ==> RStrip(s)[|RStrip(s)| - 1] != '\r' && RStrip(s)[|RStrip(s)| - 1] != '\n'
  {
    if s != "" && (s[|s| - 1] == '\r' || s[|s| - 1] == '\n') {
      RStripExactly(s[..|s| - 1]);
    }
  }

  /** A record is the time, the pipe and at most 65536 characters of the line. */
  lemma RecordSpells<P>(c: Codec<P>, stamp: string, call: Call)
    ensures var text, record := TextOf(c, call), LogRecord(c, stamp, call);
      && stamp + " " + call.pipe + " " <= record
      && record[|stamp| + |call.pipe| + 2..] <= text
      && |record| == |stamp| + |call.pipe| + 2 + if |text| <= 65536 then |text| else 65536
  {
    var text, head := TextOf(c, call), stamp + " " + call.pipe + " ";
    var cut := if |text| > 65536 then text[..65536] else text;
    assert LogRecord(c, stamp, call) == head + cut && (head + cut)[|head|..] == cut;
  }

  // ----- what is kept -----

  /** The records of some calls, each stamped with its own clock reading. */
  function Records<P>(c: Codec<P>, clock: nat -> string, ticks: nat, calls: seq<Call>): seq<string> {
    seq(|calls|, i requires 0 <= i < |calls| => LogRecord(c, clock(ticks + i), calls[i]))
  }

  lemma {:induction false} TicksCount<P>(c: Codec<P>, key: string, clock: nat -> string,
      st: Shared<P>, calls: seq<Call>)
    ensures HandleAll(c, key, clock, st, calls).ticks == st.ticks + |calls|
  {
    hide LogRecord, Trusted;
    if calls != [] {
      TicksCount(c, key, clock, st, calls[..|calls| - 1]);
    }
  }

  lemma RecordsSnoc<P>(c: Codec<P>, clock: nat -> string, ticks: nat, calls: seq<Call>, call: Call)
    ensures Records(c, clock, ticks, calls + [call])
         == Records(c, clock, ticks, calls) + [LogRecord(c, clock(ticks + |calls|), call)]
  {
    hide LogRecord;
  }

  /** What has been kept of some records: nothing else, and all of them exactly if they fit. */
  ghost predicate KeptOf(lines: seq<string>, records: seq<string>) {
    && |lines| <= |records| && TotalLength(lines) <= TotalLength(records)
    && (|lines| == |records| ==> lines == records)
    && (lines == records <==> |records| <= 20000 && TotalLength(records) <= 16777216)
  }

  lemma KeptSnoc(lines: seq<string>, records: seq<string>, last: string)
    requires KeptOf(lines, records)
    ensures |lines| < 20000 && TotalLength(lines) + |last| <= 16777216 ==> KeptOf(lines + [last], records + [last])
    ensures |lines| >= 20000 || TotalLength(lines) + |last| > 16777216 ==> KeptOf(lines, records + [last])
  {
    hide TotalLength;
    TotalSnoc(lines, last);
    TotalSnoc(records, last);
    assert lines + [last] == records + [last] <==> lines == records by {
      assert (lines + [last])[..|lines + [last]| - 1] == lines;
      assert (records + [last])[..|records + [last]| - 1] == records;
    }
  }

  lemma HandleKeeps<P>(c: Codec<P>, key: string, clock: nat -> string, st: Shared<P>, call: Call, records: seq<string>)
    requires KeptOf(st.lines, records) && st.retained == TotalLength(st.lines)
    ensures KeptOf(Handle(c, key, clock, st, call).lines, records + [LogRecord(c, clock(st.ticks), call)])
  {
    KeptOrNot(c, key, clock, st, call);
    hide Handle, LogRecord, KeptOf, TotalLength;
    KeptSnoc(st.lines, records, LogRecord(c, clock(st.ticks), call));
  }

  lemma HandleAllSnoc<P>(c: Codec<P>, key: string, clock: nat -> string, st: Shared<P>, calls: seq<Call>, call: Call)
    ensures HandleAll(c, key, clock, st, calls + [call])
         == Handle(c, key, clock, HandleAll(c, key, clock, st, calls), call)
  {
    assert (calls + [call])[..|calls|] == calls;
  }

  lemma OneMoreKept<P>(c: Codec<P>, key: string, clock: nat -> string, calls: seq<Call>, call: Call)
    requires KeptOf(HandleAll(c, key, clock, Initial(), calls).lines, Records(c, clock, 0, calls))
    ensures KeptOf(HandleAll(c, key, clock, Initial(), calls + [call]).lines, Records(c, clock, 0, calls + [call]))
  {
    HandleAllSnoc(c, key, clock, Initial(), calls, call);
    RecordsSnoc(c, clock, 0, calls, call);
    TicksCount(c, key, clock, Initial(), calls);
    RetentionBounded(c, key, clock, Initial(), calls);
    hide HandleAll, LogRecord, Records, TotalLength, Handle, KeptOf;
    HandleKeeps(c, key, clock, HandleAll(c, key, clock, Initial(), calls), call, Records(c, clock, 0, calls));
  }

  lemma NothingKept<P>(c: Codec<P>, key: string, clock: nat -> string)
    ensures KeptOf(HandleAll(c, key, clock, Initial(), []).lines, Records(c, clock, 0, []))
  {
    assert Records(c, clock, 0, []) == [];
  }

  /** Nothing but records is kept, and every record is exactly when there are at most 20000 of
      them and together they fit in 16 MiB. */
  lemma {:induction false} AllKeptExactly<P>(c: Codec<P>, key: string, clock: nat -> string, calls: seq<Call>)
    ensures KeptOf(HandleAll(c, key, clock, Initial(), calls).lines, Records(c, clock, 0, calls))
    decreases |calls|
  {
    hide HandleAll, Records, KeptOf;
    if calls == [] {
      NothingKept(c, key, clock);
    } else {
      var before, last := calls[..|calls| - 1], calls[|calls| - 1];
      AllKeptExactly(c, key, clock, before);
      OneMoreKept(c, key, clock, before, last);
      assert calls == before + [last];
    }
  }

  lemma TotalSnoc(lines: seq<string>, last: string)
    ensures TotalLength(lines + [last]) == TotalLength(lines) + |last|
  {
    assert (lines + [last])[..|lines|] == lines;
  }

  /** One line is kept, last, exactly when there is room for one more and for its length. */
  lemma KeptOrNot<P>(c: Codec<P>, key: string, clock: nat -> string, st: Shared<P>, call: Call)
    ensures var record, after := LogRecord(c, clock(st.ticks), call), Handle(c, key, clock, st, call);
      && (|st.lines| < 20000 && st.retained + |record| <= 16777216 ==>
            after.lines == st.lines + [record] && after.retained == st.retained + |record|)
      && (|st.lines| >= 20000 || st.retained + |record| > 16777216 ==>
            after.lines == st.lines && after.retained == st.retained)
  {
    hide LogRecord, Trusted;
  }

  // ----- the events -----

  /** A line is trusted for exactly the payloads that some envelope of it carries under the
      digest of the payload's canonical form and the controller's own, non-empty key. */
  lemma TrustedMeansSigned<P>(c: Codec<P>, key: string, line: string, p: P)
    ensures Trusted(c, key, line) == Some(p)
       <==> && key != "" && |line| >= 16 && line[..16] == "LTX_BENCH_EVENT "
            && c.parse(line[16..]) == Some(Envelope(Some(c.digest(c.canonical(p), key)), p))
  {
    assert |EVENT_PREFIX| == 16;
    assert EVENT_PREFIX <= line <==> |line| >= 16 && line[..16] == EVENT_PREFIX;
  }

  function EventFrom<P>(c: Codec<P>, key: string, stamp: string, call: Call): seq<Event<P>> {
    match Trusted(c, key, TextOf(c, call))
    case None => []
    case Some(p) => [Event(p, stamp, c.timeNs(p))]
  }

  function EventsFrom<P>(c: Codec<P>, key: string, clock: nat -> string, ticks: nat, calls: seq<Call>):
      seq<seq<Event<P>>> {
    seq(|calls|, i requires 0 <= i < |calls| => EventFrom(c, key, clock(ticks + i), calls[i]))
  }

  lemma EventsFromSnoc<P>(c: Codec<P>, key: string, clock: nat -> string, ticks: nat, calls: seq<Call>, call: Call)
    ensures EventsFrom(c, key, clock, ticks, calls + [call])
         == EventsFrom(c, key, clock, ticks, calls) + [EventFrom(c, key, clock(ticks + |calls|), call)]
  {
    hide EventFrom;
  }

  lemma OneEvent<P>(c: Codec<P>, key: string, clock: nat -> string, st: Shared<P>, call: Call)
    ensures Handle(c, key, clock, st, call).events == st.events + EventFrom(c, key, clock(st.ticks), call)
  {
    hide Trusted, LogRecord;
  }

  ghost predicate Stamped<P>(c: Codec<P>, key: string, clock: nat -> string, st: Shared<P>, calls: seq<Call>) {
    HandleAll(c, key, clock, st, calls).events == st.events + Flatten(EventsFrom(c, key, clock, st.ticks, calls))
  }

  lemma OneMoreStamped<P>(c: Codec<P>, key: string, clock: nat -> string, st: Shared<P>, calls: seq<Call>, call: Call)
    requires Stamped(c, key, clock, st, calls)
    ensures Stamped(c, key, clock, st, calls + [call])
  {
    HandleAllSnoc(c, key, clock, st, calls, call);
    TicksCount(c, key, clock, st, calls);
    OneEvent(c, key, clock, HandleAll(c, key, clock, st, calls), call);
    EventsFromSnoc(c, key, clock, st.ticks, calls, call);
    var before, one := EventsFrom(c, key, clock, st.ticks, calls), EventFrom(c, key, clock(st.ticks + |calls|), call);
    FlattenOne(before, one);
    hide HandleAll, Flatten, EventsFrom, EventFrom, Handle;
    assert st.events + Flatten(before) + one == st.events + (Flatten(before) + one);
  }

  /** Every trusted line adds one event, observed at its own clock reading and with the time its
      payload names, kept or not by the log; no other line adds any. */
  lemma {:induction false} EventsStamped<P>(c: Codec<P>, key: string, clock: nat -> string,
      st: Shared<P>, calls: seq<Call>)
    ensures HandleAll(c, key, clock, st, calls).events
         == st.events + Flatten(EventsFrom(c, key, clock, st.ticks, calls))
    decreases |calls|
  {
    if calls == [] {
      assert EventsFrom(c, key, clock, st.ticks, calls) == [];
    } else {
      hide HandleAll, EventsFrom, Flatten;
      var before, last := calls[..|calls| - 1], calls[|calls| - 1];
      EventsStamped(c, key, clock, st, before);
      OneMoreStamped(c, key, clock, st, before, last);
      assert calls == before + [last];
    }
  }
}
