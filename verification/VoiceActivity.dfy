/** Cutting a stream of timestamped audio blocks into speech segments. */
module VoiceActivity {

  const HALF_SECOND := 8000

  type Sample = real

  /** One block from the input callback, with its measured level. */
  datatype Block = Block(time: real, audio: seq<Sample>, level: real)

  /** What the speech engine makes of a segment: some text, or an exception. */
  datatype Heard = Text(text: string) | Raises

  function Audio(blocks: seq<Block>): seq<Sample> {
    if blocks == [] then [] else Audio(blocks[..|blocks| - 1]) + blocks[|blocks| - 1].audio
  }

  ghost predicate NonDecreasing(blocks: seq<Block>) {
    forall i, j :: 0 <= i <= j < |blocks| ==> blocks[i].time <= blocks[j].time
  }

  /** The positions of one segment's blocks: from..to-1. */
  datatype Range = Range(from: nat, to: nat)

  datatype Settings = Settings(silenceThreshold: real, minSpeechMs: real, silenceDurationMs: real)

  predicate Speech(s: Settings, b: Block) {
    b.level > s.silenceThreshold
  }

  /** The time of the last speech block among blocks[from..to]. */
  function LastSpeech(s: Settings, blocks: seq<Block>, from: nat, to: nat): real
    requires from <= to < |blocks|
  {
    if from == to || Speech(s, blocks[to]) then blocks[to].time else LastSpeech(s, blocks, from, to - 1)
  }

  function SilenceMs(s: Settings, blocks: seq<Block>, from: nat, i: nat): real
    requires from <= i < |blocks|
  {
    (blocks[i].time - LastSpeech(s, blocks, from, i)) * 1000.0
  }

  function SpeechMs(blocks: seq<Block>, from: nat, i: nat): real
    requires from <= i < |blocks|
  {
    (blocks[i].time - blocks[from].time) * 1000.0
  }

  /** The test that hands a segment over, at a silent block i of a segment begun at `from`. */
  predicate Triggers(s: Settings, blocks: seq<Block>, from: nat, i: nat)
    requires from <= i < |blocks|
  {
    SilenceMs(s, blocks, from, i) > s.silenceDurationMs && SpeechMs(blocks, from, i) > s.minSpeechMs
  }

  lemma {:induction false} LastSpeechBetween(s: Settings, blocks: seq<Block>, from: nat, i: nat)
    requires from <= i < |blocks| && NonDecreasing(blocks)
    ensures blocks[from].time <= LastSpeech(s, blocks, from, i) <= blocks[i].time
  {
    if from != i && !Speech(s, blocks[i]) {
      LastSpeechBetween(s, blocks, from, i - 1);
    }
  }

  /** Silence is never longer than the speech it ends, so a minimum speech length of at most the
      silence trigger never decides. */
  lemma MinimumNeverDecides(s: Settings, blocks: seq<Block>, from: nat, i: nat)
    requires from <= i < |blocks| && NonDecreasing(blocks)
    ensures SilenceMs(s, blocks, from, i) <= SpeechMs(blocks, from, i)
    ensures s.minSpeechMs <= s.silenceDurationMs ==>
      (Triggers(s, blocks, from, i) <==> SilenceMs(s, blocks, from, i) > s.silenceDurationMs)
  {
    LastSpeechBetween(s, blocks, from, i);
  }

  /** With j the last speech block of a segment before its silent block i, the test asks whether
      the silence since j and the whole segment so far have both lasted long enough. */
  lemma TriggerMeans(s: Settings, blocks: seq<Block>, from: nat, j: nat, i: nat)
    requires from <= j < i < |blocks| && blocks[j].level > s.silenceThreshold
    requires forall k :: j < k <= i ==> blocks[k].level <= s.silenceThreshold
    ensures Triggers(s, blocks, from, i) <==>
      (blocks[i].time - blocks[j].time) * 1000.0 > s.silenceDurationMs
      && (blocks[i].time - blocks[from].time) * 1000.0 > s.minSpeechMs
  {
    LastSpeechIs(s, blocks, from, j, i);
  }

  lemma {:induction false} LastSpeechIs(s: Settings, blocks: seq<Block>, from: nat, j: nat, i: nat)
    requires from <= j <= i < |blocks| && Speech(s, blocks[j]) && forall k :: j < k <= i ==> !Speech(s, blocks[k])
    ensures LastSpeech(s, blocks, from, i) == blocks[j].time
  {
    if j < i {
      LastSpeechIs(s, blocks, from, j, i - 1);
    }
  }

  // ----- what becomes of the text -----

  /** What the first n attempts add to the transcript: each text of more than one character. */
  function Transcript(heard: nat -> Heard, n: nat): seq<string> {
    if n == 0 then []
    else
      Transcript(heard, n - 1) +
        match heard(n - 1)
        case Raises => []
        case Text(text) => if |text| > 1 then [text] else []
  }

  /** How many of the first n attempts give a text. */
  function Successes(heard: nat -> Heard, n: nat): nat {
    if n == 0 then 0 else Successes(heard, n - 1) + if heard(n - 1).Text? then 1 else 0
  }

  lemma {:induction false} AllSucceed(heard: nat -> Heard, n: nat)
    requires forall a: nat :: heard(a).Text?
    ensures Successes(heard, n) == n
  {
    if n > 0 {
      AllSucceed(heard, n - 1);
    }
  }

  // ----- what a segmentation is -----

  ghost predicate Ordered(ranges: seq<Range>, residual: nat, n: nat) {
    && (forall k :: 0 <= k < |ranges| ==> ranges[k].from < ranges[k].to <= residual)
    && (forall j, k :: 0 <= j < k < |ranges| ==> ranges[j].to <= ranges[k].from)
    && residual <= n
  }

  predicate Within(r: Range, i: nat) {
    r.from <= i < r.to
  }

  /** Each segment is a run of blocks that starts with speech; between segments is only silence;
      from `residual` on, the blocks are still buffered. */
  ghost predicate Segmentation(s: Settings, blocks: seq<Block>, n: nat, ranges: seq<Range>, residual: nat)
    requires n <= |blocks|
  {
    && Ordered(ranges, residual, n)
    && (forall k :: 0 <= k < |ranges| ==> Speech(s, blocks[ranges[k].from]))
    && (residual < n ==> Speech(s, blocks[residual]))
    && (forall i :: 0 <= i < residual && Speech(s, blocks[i]) ==> exists k :: 0 <= k < |ranges| && Within(ranges[k], i))
  }

  /** Every speech block is in exactly one segment, or in the residual buffer and no segment. */
  lemma SpeechBlockOnce(s: Settings, blocks: seq<Block>, ranges: seq<Range>, residual: nat, i: nat)
    requires Segmentation(s, blocks, |blocks|, ranges, residual)
    requires i < |blocks| && Speech(s, blocks[i])
    ensures i < residual <==> exists k :: 0 <= k < |ranges| && Within(ranges[k], i)
    ensures forall j, k :: 0 <= j < |ranges| && 0 <= k < |ranges| && Within(ranges[j], i) && Within(ranges[k], i) ==>
      j == k
  {
  }

  /** Block i is in a segment handed to the engine, or in the tail when that is handed over. */
  predicate HandedOver(ranges: seq<Range>, residual: nat, tail: bool, i: nat) {
    (exists k :: 0 <= k < |ranges| && Within(ranges[k], i)) || (tail && residual <= i)
  }

  /** Whether every speech block is handed over. */
  ghost predicate NoSpeechLost(s: Settings, blocks: seq<Block>, ranges: seq<Range>, residual: nat, tail: bool) {
    forall i :: 0 <= i < |blocks| && Speech(s, blocks[i]) ==> HandedOver(ranges, residual, tail, i)
  }

  /** What is buffered at the stop begins with speech, so speech is lost exactly when there is
      such a rest and it is not handed over. */
  lemma ShortTailLost(s: Settings, blocks: seq<Block>, ranges: seq<Range>, residual: nat, tail: bool)
    requires Segmentation(s, blocks, |blocks|, ranges, residual)
    ensures NoSpeechLost(s, blocks, ranges, residual, tail) <==> residual == |blocks| || tail
  {
    if residual < |blocks| && !tail {
      assert Speech(s, blocks[residual]) && !HandedOver(ranges, residual, tail, residual);
    }
  }

  /** A segment ends at the first of its silent blocks to pass the test. */
  ghost predicate EndsAtTrigger(s: Settings, blocks: seq<Block>, r: Range)
    requires r.from < r.to <= |blocks|
  {
    && !Speech(s, blocks[r.to - 1]) && Triggers(s, blocks, r.from, r.to - 1)
    && NoTrigger(s, blocks, r.from, r.to - 1)
  }

  ghost predicate NoTrigger(s: Settings, blocks: seq<Block>, from: nat, to: nat)
    requires to <= |blocks|
  {
    forall i :: from <= i < to && !Speech(s, blocks[i]) ==> !Triggers(s, blocks, from, i)
  }

  /** Every segment ends at a silent block that passes the test. */
  ghost predicate AllPass(s: Settings, blocks: seq<Block>, ranges: seq<Range>, n: nat) {
    n <= |blocks| && forall k :: 0 <= k < |ranges| ==>
      ranges[k].from < ranges[k].to <= n
      && !Speech(s, blocks[ranges[k].to - 1]) && Triggers(s, blocks, ranges[k].from, ranges[k].to - 1)
  }

  lemma PassesGrow(s: Settings, blocks: seq<Block>, ranges: seq<Range>, from: nat, i: nat)
    requires from <= i < |blocks| && AllPass(s, blocks, ranges, i)
    ensures AllPass(s, blocks, ranges, i + 1)
    ensures !Speech(s, blocks[i]) && Triggers(s, blocks, from, i) ==>
      AllPass(s, blocks, ranges + [Range(from, i + 1)], i + 1)
  {
    hide Triggers, Speech;
  }

  ghost predicate AllEndAtTrigger(s: Settings, blocks: seq<Block>, ranges: seq<Range>, n: nat) {
    n <= |blocks| && forall k :: 0 <= k < |ranges| ==>
      ranges[k].from < ranges[k].to <= n && EndsAtTrigger(s, blocks, ranges[k])
  }

  /** The segments' audio is that of their blocks, each block in the order it came. */
  ghost predicate Carries(blocks: seq<Block>, ranges: seq<Range>, segments: seq<seq<Sample>>) {
    && |segments| >= |ranges|
    && forall k :: 0 <= k < |ranges| ==>
         ranges[k].from <= ranges[k].to <= |blocks| && segments[k] == Audio(blocks[ranges[k].from..ranges[k].to])
  }

  lemma SegmentGrows(s: Settings, blocks: seq<Block>, n: nat, ranges: seq<Range>, residual: nat)
    requires n < |blocks| && Segmentation(s, blocks, n, ranges, residual)
    requires residual < n || Speech(s, blocks[n])
    ensures Segmentation(s, blocks, n + 1, ranges, residual)
  {
  }

  lemma SilenceSkipped(s: Settings, blocks: seq<Block>, n: nat, ranges: seq<Range>, residual: nat)
    requires n < |blocks| && Segmentation(s, blocks, n, ranges, residual)
    requires residual == n && !Speech(s, blocks[n])
    ensures Segmentation(s, blocks, n + 1, ranges, n + 1)
  {
  }

  lemma SegmentClosed(s: Settings, blocks: seq<Block>, n: nat, ranges: seq<Range>, residual: nat)
    requires n <= |blocks| && Segmentation(s, blocks, n, ranges, residual) && residual < n
    ensures Segmentation(s, blocks, n, ranges + [Range(residual, n)], n)
  {
    var more := ranges + [Range(residual, n)];
    assert more[|ranges|] == Range(residual, n);
    forall i | 0 <= i < n && Speech(s, blocks[i])
      ensures exists k :: 0 <= k < |more| && Within(more[k], i)
    {
      if i < residual {
        var k :| 0 <= k < |ranges| && Within(ranges[k], i);
        assert Within(more[k], i);
      } else {
        assert Within(more[|ranges|], i);
      }
    }
  }

  lemma AudioSnoc(blocks: seq<Block>, from: nat, i: nat)
    requires from <= i < |blocks|
    ensures Audio(blocks[from..i + 1]) == Audio(blocks[from..i]) + blocks[i].audio
  {
    assert blocks[from..i + 1][..i - from] == blocks[from..i];
  }

  lemma AudioOfNothing(blocks: seq<Block>)
    requires |blocks| == 0
    ensures Audio(blocks) == []
  {
  }

  lemma NoTriggerGrows(s: Settings, blocks: seq<Block>, from: nat, i: nat)
    requires from <= i < |blocks|
    ensures NoTrigger(s, blocks, from, i + 1)
       <==> NoTrigger(s, blocks, from, i) && (Speech(s, blocks[i]) || !Triggers(s, blocks, from, i))
    ensures NoTrigger(s, blocks, i + 1, i + 1)
  {
  }

  lemma EndsGrow(s: Settings, blocks: seq<Block>, ranges: seq<Range>, from: nat, i: nat)
    requires from <= i < |blocks| && AllEndAtTrigger(s, blocks, ranges, i)
    ensures AllEndAtTrigger(s, blocks, ranges, i + 1)
    ensures NoTrigger(s, blocks, from, i) && !Speech(s, blocks[i]) && Triggers(s, blocks, from, i) ==>
      AllEndAtTrigger(s, blocks, ranges + [Range(from, i + 1)], i + 1)
  {
  }

  lemma CarriesMore(blocks: seq<Block>, ranges: seq<Range>, segments: seq<seq<Sample>>, r: Range, audio: seq<Sample>)
    requires Carries(blocks, ranges, segments) && |segments| == |ranges|
    requires r.from <= r.to <= |blocks| && audio == Audio(blocks[r.from..r.to])
    ensures Carries(blocks, ranges + [r], segments + [audio])
  {
  }

  /** What holds after the first n blocks; `sure` when no transcription attempt raises. */
  ghost predicate After(s: Settings, blocks: seq<Block>, n: nat, ranges: seq<Range>, residual: nat,
      segments: seq<seq<Sample>>, buffer: seq<Sample>, sure: bool)
  {
    && residual <= n <= |blocks|
    && Segmentation(s, blocks, n, ranges, residual)
    && |segments| == |ranges| && Carries(blocks, ranges, segments)
    && buffer == Audio(blocks[residual..n]) && AllPass(s, blocks, ranges, n)
    && (sure ==> NoTrigger(s, blocks, residual, n) && AllEndAtTrigger(s, blocks, ranges, n))
  }

  lemma AfterNothing(s: Settings, blocks: seq<Block>, sure: bool)
    ensures After(s, blocks, 0, [], 0, [], [], sure)
  {
  }

  lemma AfterBuffering(s: Settings, blocks: seq<Block>, n: nat, ranges: seq<Range>, residual: nat,
      segments: seq<seq<Sample>>, buffer: seq<Sample>, sure: bool)
    requires After(s, blocks, n, ranges, residual, segments, buffer, sure) && n < |blocks|
    requires residual < n || Speech(s, blocks[n])
    requires sure ==> Speech(s, blocks[n]) || !Triggers(s, blocks, residual, n)
    ensures After(s, blocks, n + 1, ranges, residual, segments, buffer + blocks[n].audio, sure)
  {
    hide Segmentation, Triggers, Speech, Audio, NoTrigger, AllEndAtTrigger, AllPass, Carries;
    PassesGrow(s, blocks, ranges, residual, n);
    SegmentGrows(s, blocks, n, ranges, residual);
    AudioSnoc(blocks, residual, n);
    NoTriggerGrows(s, blocks, residual, n);
    if sure {
      EndsGrow(s, blocks, ranges, residual, n);
    }
  }

  lemma AfterSilence(s: Settings, blocks: seq<Block>, n: nat, ranges: seq<Range>,
      segments: seq<seq<Sample>>, buffer: seq<Sample>, sure: bool)
    requires After(s, blocks, n, ranges, n, segments, buffer, sure) && n < |blocks| && !Speech(s, blocks[n])
    ensures After(s, blocks, n + 1, ranges, n + 1, segments, buffer, sure)
  {
    hide Segmentation, Triggers, Speech, NoTrigger, AllEndAtTrigger, AllPass, Carries;
    PassesGrow(s, blocks, ranges, n, n);
    SilenceSkipped(s, blocks, n, ranges, n);
    NoTriggerGrows(s, blocks, n, n);
    assert blocks[n..n] == [] && blocks[n + 1..n + 1] == [];
    if sure {
      EndsGrow(s, blocks, ranges, n, n);
    }
  }

  lemma AfterHandingOver(s: Settings, blocks: seq<Block>, n: nat, ranges: seq<Range>, residual: nat,
      segments: seq<seq<Sample>>, buffer: seq<Sample>, sure: bool)
    requires After(s, blocks, n, ranges, residual, segments, buffer, sure) && residual < n < |blocks|
    requires !Speech(s, blocks[n]) && Triggers(s, blocks, residual, n)
    ensures After(s, blocks, n + 1, ranges + [Range(residual, n + 1)], n + 1,
                  segments + [buffer + blocks[n].audio], [], sure)
  {
    hide Segmentation, Triggers, Speech, NoTrigger, AllEndAtTrigger, AllPass, Carries;
    PassesGrow(s, blocks, ranges, residual, n);
    SegmentGrows(s, blocks, n, ranges, residual);
    SegmentClosed(s, blocks, n + 1, ranges, residual);
    AudioSnoc(blocks, residual, n);
    CarriesMore(blocks, ranges, segments, Range(residual, n + 1), buffer + blocks[n].audio);
    NoTriggerGrows(s, blocks, residual, n);
    AudioOfNothing(blocks[n + 1..n + 1]);
    hide Audio;
    if sure {
      EndsGrow(s, blocks, ranges, residual, n);
    }
  }

  // ----- the transcriber -----

  class LiveTranscriber {
    const s: Settings
    var isSpeaking: bool
    var speechStart: real
    var lastSpeechTime: real
    var fullTranscript: seq<string>

    constructor (s: Settings)
      ensures this.s == s && !isSpeaking && fullTranscript == []
    {
      this.s := s;
      isSpeaking, speechStart, lastSpeechTime, fullTranscript := false, 0.0, 0.0, [];
    }

    /** While speaking, the clock fields describe the buffered segment. */
    ghost predicate Tracks(blocks: seq<Block>, n: nat, from: nat)
      requires n <= |blocks|
      reads this
    {
      && (isSpeaking <==> from < n)
      && (isSpeaking ==> speechStart == blocks[from].time && lastSpeechTime == LastSpeech(s, blocks, from, n - 1))
    }

    /** The stream loop over everything the queue delivers until it stops; `heard` answers the
        transcription attempts in order. Each success ends a segment and adds its text to the
        transcript, unless that is a single character or none; an attempt that raises leaves the
        buffer as it is. */
    method ProcessBlocks(blocks: seq<Block>, heard: nat -> Heard)
      returns (segments: seq<seq<Sample>>, buffer: seq<Sample>, ghost ranges: seq<Range>, ghost residual: nat,
        ghost tries: nat)
      requires !isSpeaking
      modifies this
      ensures Segmentation(s, blocks, |blocks|, ranges, residual)
      ensures |segments| == |ranges| && Carries(blocks, ranges, segments)
      ensures residual <= |blocks| && buffer == Audio(blocks[residual..])
      ensures fullTranscript == old(fullTranscript) + Transcript(heard, tries) && |ranges| == Successes(heard, tries)
      ensures AllPass(s, blocks, ranges, |blocks|)
      ensures (forall a: nat :: heard(a).Text?) ==>
        NoTrigger(s, blocks, residual, |blocks|) && AllEndAtTrigger(s, blocks, ranges, |blocks|)
    {
      hide After, Triggers, Speech;
      ghost var sure := forall a: nat :: heard(a).Text?;
      segments, ranges, buffer, residual := [], [], [], 0;
      AfterNothing(s, blocks, sure);
      var attempts: nat := 0;
      for i := 0 to |blocks|
        invariant residual <= i && Tracks(blocks, i, residual)
        invariant After(s, blocks, i, ranges, residual, segments, buffer, sure)
        invariant fullTranscript == old(fullTranscript) + Transcript(heard, attempts)
        invariant |ranges| == Successes(heard, attempts)
      {
        var b := blocks[i];
        if Speech(s, b) {
          AfterBuffering(s, blocks, i, ranges, residual, segments, buffer, sure);
          if !isSpeaking {
            isSpeaking := true;
            speechStart := b.time;
          }
          lastSpeechTime := b.time;
          buffer := buffer + b.audio;
          SpeechIsLast(s, blocks, residual, i);
        } else if isSpeaking {
          ghost var before := buffer;
          buffer := buffer + b.audio;
          var silenceMs := (b.time - lastSpeechTime) * 1000.0;
          var speechMs := (b.time - speechStart) * 1000.0;
          TriggerTest(s, blocks, residual, i);
          var handedOver := false;
          if silenceMs > s.silenceDurationMs && speechMs > s.minSpeechMs {
            var outcome := heard(attempts);
            attempts := attempts + 1;
            if outcome.Text? {
              handedOver := true;
              if |outcome.text| > 1 {
                fullTranscript := fullTranscript + [outcome.text];
              }
              AfterHandingOver(s, blocks, i, ranges, residual, segments, before, sure);
              segments := segments + [buffer];
              ranges := ranges + [Range(residual, i + 1)];
              buffer := [];
              residual := i + 1;
              isSpeaking := false;
            }
          }
          if !handedOver {
            AfterBuffering(s, blocks, i, ranges, residual, segments, before, sure);
          }
        } else {
          AfterSilence(s, blocks, i, ranges, segments, buffer, sure);
          residual := i + 1;
        }
      }
      AfterAll(s, blocks, ranges, residual, segments, buffer, sure);
      tries := attempts;
    }

    /** The loop, and then what is left: a tail of more than half a second, 8000 samples, is
        transcribed too, any text of it kept, and with a shorter one the speech in it is lost. */
    method ProcessAudioStream(blocks: seq<Block>, heard: nat -> Heard, atEnd: Heard)
      returns (segments: seq<seq<Sample>>, tail: bool, ghost ranges: seq<Range>, ghost residual: nat, ghost tries: nat)
      requires !isSpeaking
      modifies this
      ensures Segmentation(s, blocks, |blocks|, ranges, residual) && residual <= |blocks|
      ensures |segments| == |ranges| + (if tail then 1 else 0) && Carries(blocks, ranges, segments)
      ensures (forall a: nat :: heard(a).Text?) ==>
        NoTrigger(s, blocks, residual, |blocks|) && AllEndAtTrigger(s, blocks, ranges, |blocks|)
      ensures AllPass(s, blocks, ranges, |blocks|) && |ranges| == Successes(heard, tries)
      ensures fullTranscript == old(fullTranscript) + Transcript(heard, tries)
        + if tail && atEnd.Text? && atEnd.text != "" then [atEnd.text] else []
      ensures tail ==> segments[|ranges|] == Audio(blocks[residual..])
      ensures tail <==> |Audio(blocks[residual..])| > 8000
      ensures NoSpeechLost(s, blocks, ranges, residual, tail)
        <==> residual == |blocks| || |Audio(blocks[residual..])| > 8000
    {
      var buffer;
      segments, buffer, ranges, residual, tries := ProcessBlocks(blocks, heard);
      tail := |buffer| > HALF_SECOND;
      ShortTailLost(s, blocks, ranges, residual, tail);
      if tail {
        segments := segments + [buffer];
        if atEnd.Text? && atEnd.text != "" {
          fullTranscript := fullTranscript + [atEnd.text];
        }
      }
    }
  }

  lemma AfterAll(s: Settings, blocks: seq<Block>, ranges: seq<Range>, residual: nat,
      segments: seq<seq<Sample>>, buffer: seq<Sample>, sure: bool)
    requires After(s, blocks, |blocks|, ranges, residual, segments, buffer, sure)
    ensures Segmentation(s, blocks, |blocks|, ranges, residual)
    ensures |segments| == |ranges| && Carries(blocks, ranges, segments)
    ensures residual <= |blocks| && buffer == Audio(blocks[residual..]) && AllPass(s, blocks, ranges, |blocks|)
    ensures sure ==> NoTrigger(s, blocks, residual, |blocks|) && AllEndAtTrigger(s, blocks, ranges, |blocks|)
  {
    assert blocks[residual..|blocks|] == blocks[residual..];
  }

  lemma SpeechIsLast(s: Settings, blocks: seq<Block>, from: nat, i: nat)
    requires from <= i < |blocks| && Speech(s, blocks[i])
    ensures LastSpeech(s, blocks, from, i) == blocks[i].time
  {
  }

  /** While speaking, the two clock differences of the code are the test's two durations. */
  lemma TriggerTest(s: Settings, blocks: seq<Block>, from: nat, i: nat)
    requires from < i < |blocks| && !Speech(s, blocks[i])
    ensures LastSpeech(s, blocks, from, i) == LastSpeech(s, blocks, from, i - 1)
    ensures Triggers(s, blocks, from, i) <==>
      (blocks[i].time - LastSpeech(s, blocks, from, i - 1)) * 1000.0 > s.silenceDurationMs
      && (blocks[i].time - blocks[from].time) * 1000.0 > s.minSpeechMs
  {
  }
}
