/** Per-step timing: the duration samples of each stage and the in-place boundary notes. */
module StepTiming {
  import opened Wrappers

  datatype Step = Step(stage: int, time: real, durationToNext: Option<real>, transition: Option<real>)

  function Total(xs: seq<real>): real {
    if xs == [] then 0.0 else Total(xs[..|xs| - 1]) + xs[|xs| - 1]
  }

  // ----- what the samples of a stage are -----

  /** The gaps between neighbouring steps that are both in stage g. */
  function Gaps(steps: seq<Step>, g: int): seq<real> {
    if |steps| < 2 then []
    else
      var current, following := steps[|steps| - 2], steps[|steps| - 1];
      Gaps(steps[..|steps| - 1], g) +
        if current.stage == following.stage == g then [following.time - current.time] else []
  }

  function LastOf(steps: seq<Step>, g: int): Option<real> {
    if steps == [] then None
    else if steps[|steps| - 1].stage == g then Some(steps[|steps| - 1].time)
    else LastOf(steps[..|steps| - 1], g)
  }

  function EndSample(steps: seq<Step>, g: int, end: Option<real>): seq<real> {
    match (LastOf(steps, g), end)
    case (Some(last), Some(e)) => [e - last]
    case _ => []
  }

  /** All samples of stage g: its gaps, and from its last step to its end if one was seen. */
  function Samples(steps: seq<Step>, ends: map<int, real>, g: int): seq<real> {
    Gaps(steps, g) + EndSample(steps, g, if g in ends then Some(ends[g]) else None)
  }

  // ----- the two loops of the code -----

  function Get(d: map<int, seq<real>>, g: int): seq<real> {
    if g in d then d[g] else []
  }

  function Append(d: map<int, seq<real>>, g: int, x: real): map<int, seq<real>> {
    d[g := Get(d, g) + [x]]
  }

  ghost predicate NonEmptyEntries(d: map<int, seq<real>>) {
    forall g :: g in d ==> d[g] != []
  }

  /** Ends arrive as a dictionary in some order, one entry per stage. */
  ghost predicate Lists(order: seq<int>, ends: map<int, real>) {
    && (forall i :: 0 <= i < |order| ==> order[i] in ends)
    && (forall g :: g in ends ==> g in order)
    && (forall i, j :: 0 <= i < j < |order| ==> order[i] != order[j])
  }

  lemma GapsSnoc(steps: seq<Step>, i: nat)
    requires 1 <= i < |steps|
    ensures forall g | steps[i - 1].stage == steps[i].stage == g ::
      Gaps(steps[..i + 1], g) == Gaps(steps[..i], g) + [steps[i].time - steps[i - 1].time]
    ensures forall g | !(steps[i - 1].stage == steps[i].stage == g) ::
      Gaps(steps[..i + 1], g) == Gaps(steps[..i], g)
  {
    assert steps[..i + 1][..i] == steps[..i];
  }

  lemma OneStepNoGaps(steps: seq<Step>)
    requires |steps| <= 1
    ensures forall g :: Gaps(steps, g) == []
  {
  }

  method GapSamples(steps: seq<Step>) returns (d: map<int, seq<real>>)
    ensures NonEmptyEntries(d) && forall g :: Get(d, g) == Gaps(steps, g)
  {
    hide Gaps;
    d := map[];
    if |steps| == 0 {
      OneStepNoGaps(steps);
      return;
    }
    OneStepNoGaps(steps[..1]);
    var i := 1;
    while i < |steps|
      invariant 1 <= i <= |steps|
      invariant NonEmptyEntries(d) && forall g :: Get(d, g) == Gaps(steps[..i], g)
    {
      GapsSnoc(steps, i);
      ghost var before := d;
      var current, following := steps[i - 1], steps[i];
      if current.stage == following.stage {
        d := Append(d, current.stage, following.time - current.time);
      }
      forall g
        ensures Get(d, g) == Gaps(steps[..i + 1], g)
      {
        assert Get(before, g) == Gaps(steps[..i], g);
      }
      i := i + 1;
    }
    assert steps[..i] == steps;
  }

  method LastSteps(steps: seq<Step>) returns (last: map<int, real>)
    ensures forall g :: (if g in last then Some(last[g]) else None) == LastOf(steps, g)
  {
    last := map[];
    for i := 0 to |steps|
      invariant forall g :: (if g in last then Some(last[g]) else None) == LastOf(steps[..i], g)
    {
      assert steps[..i + 1][..i] == steps[..i];
      last := last[steps[i].stage := steps[i].time];
    }
    assert steps[..|steps|] == steps;
  }

  /** The samples so far, when only the ends of the stages in `done` have been added. */
  function SamplesWith(steps: seq<Step>, ends: map<int, real>, done: set<int>, g: int): seq<real> {
    Gaps(steps, g) + if g in done && g in ends then EndSample(steps, g, Some(ends[g])) else []
  }

  ghost predicate Holds(d: map<int, seq<real>>, steps: seq<Step>, ends: map<int, real>, done: set<int>) {
    NonEmptyEntries(d) && forall g :: Get(d, g) == SamplesWith(steps, ends, done, g)
  }

  lemma AddEnd(d: map<int, seq<real>>, d': map<int, seq<real>>, steps: seq<Step>, ends: map<int, real>,
      done: set<int>, g: int)
    requires Holds(d, steps, ends, done) && g !in done && g in ends
    requires d' == match LastOf(steps, g) case None => d case Some(last) => Append(d, g, ends[g] - last)
    ensures Holds(d', steps, ends, done + {g})
  {
    hide Gaps, LastOf;
    forall h
      ensures Get(d', h) == SamplesWith(steps, ends, done + {g}, h)
    {
      assert Get(d, h) == SamplesWith(steps, ends, done, h);
    }
  }

  /** Every stage gets exactly its samples, and no stage gets an empty list. */
  method StageDurationSamples(steps: seq<Step>, ends: map<int, real>, order: seq<int>) returns (d: map<int, seq<real>>)
    requires Lists(order, ends)
    ensures NonEmptyEntries(d) && forall g :: Get(d, g) == Samples(steps, ends, g)
  {
    hide Gaps, LastOf, SamplesWith;
    d := GapSamples(steps);
    var last := LastSteps(steps);
    NoEndsYet(steps, ends);
    ghost var done: set<int> := {};
    for i := 0 to |order|
      invariant forall g :: g in done <==> g in order[..i]
      invariant Holds(d, steps, ends, done)
    {
      var g := order[i];
      assert g !in order[..i];
      assert order[..i + 1] == order[..i] + [g];
      assert LastOf(steps, g) == if g in last then Some(last[g]) else None;
      ghost var before := d;
      if g in last {
        d := Append(d, g, ends[g] - last[g]);
      }
      AddEnd(before, d, steps, ends, done, g);
      done := done + {g};
    }
    AllEndsAdded(steps, ends, done);
  }

  lemma NoEndsYet(steps: seq<Step>, ends: map<int, real>)
    ensures forall g :: SamplesWith(steps, ends, {}, g) == Gaps(steps, g)
  {
  }

  lemma AllEndsAdded(steps: seq<Step>, ends: map<int, real>, done: set<int>)
    requires forall g :: g in ends ==> g in done
    ensures forall g :: SamplesWith(steps, ends, done, g) == Samples(steps, ends, g)
  {
  }

  // ----- what the samples add up to -----

  ghost predicate Sorted(steps: seq<Step>) {
    forall i, j :: 0 <= i <= j < |steps| ==> steps[i].time <= steps[j].time
  }

  /** The steps of stage g are exactly those at positions lo..hi. */
  ghost predicate Contiguous(steps: seq<Step>, g: int, lo: nat, hi: nat) {
    && lo < hi <= |steps|
    && forall i :: 0 <= i < |steps| ==> (steps[i].stage == g <==> lo <= i < hi)
  }

  lemma {:induction false} GapsTelescope(steps: seq<Step>, g: int, lo: nat, hi: nat)
    requires Contiguous(steps, g, lo, hi)
    ensures |Gaps(steps, g)| == hi - lo - 1
    ensures Total(Gaps(steps, g)) == steps[hi - 1].time - steps[lo].time
    ensures LastOf(steps, g) == Some(steps[hi - 1].time)
  {
    var n := |steps| - 1;
    var before := steps[..n];
    if hi <= n {
      GapsTelescope(before, g, lo, hi);
      assert Gaps(steps, g) == Gaps(before, g);
    } else if lo < n {
      GapsTelescope(before, g, lo, n);
      var d := Gaps(before, g);
      assert steps[n - 1].stage == g;
      assert (d + [steps[n].time - steps[n - 1].time])[..|d|] == d;
    } else {
      NoGaps(before, g);
    }
  }

  lemma {:induction false} GapsNonNegative(steps: seq<Step>, g: int)
    requires Sorted(steps)
    ensures forall i :: 0 <= i < |Gaps(steps, g)| ==> Gaps(steps, g)[i] >= 0.0
  {
    if |steps| >= 2 {
      GapsNonNegative(steps[..|steps| - 1], g);
      assert steps[|steps| - 2].time <= steps[|steps| - 1].time;
    }
  }

  lemma {:induction false} NoGaps(steps: seq<Step>, g: int)
    requires forall i :: 0 <= i < |steps| ==> steps[i].stage != g
    ensures Gaps(steps, g) == [] && LastOf(steps, g) == None
  {
    if steps != [] {
      NoGaps(steps[..|steps| - 1], g);
    }
  }

  /** A stage that ended: one sample per step, adding up to the time from its first step to its
      end. A stage without an end: one sample fewer, up to its last step. */
  lemma SamplesTelescope(steps: seq<Step>, ends: map<int, real>, g: int, lo: nat, hi: nat)
    requires Contiguous(steps, g, lo, hi)
    ensures |Samples(steps, ends, g)| == if g in ends then hi - lo else hi - lo - 1
    ensures Total(Samples(steps, ends, g))
         == (if g in ends then ends[g] else steps[hi - 1].time) - steps[lo].time
    ensures Sorted(steps) && (g in ends ==> steps[hi - 1].time <= ends[g]) ==>
      forall i :: 0 <= i < |Samples(steps, ends, g)| ==> Samples(steps, ends, g)[i] >= 0.0
  {
    GapsTelescope(steps, g, lo, hi);
    if Sorted(steps) {
      GapsNonNegative(steps, g);
    }
    hide Gaps, LastOf;
    var d := Gaps(steps, g);
    if g in ends {
      assert (d + [ends[g] - steps[hi - 1].time])[..|d|] == d;
    } else {
      assert Samples(steps, ends, g) == d;
    }
  }

  // ----- notes on the events themselves -----

  /** What the loop writes to an event, given the next one. */
  function Noted(current: Step, following: Step): Step {
    var gap := following.time - current.time;
    if current.stage == following.stage then current.(durationToNext := Some(gap))
    else current.(transition := Some(gap))
  }

  function NotedAll(steps: seq<Step>): seq<Step> {
    seq(|steps|, i requires 0 <= i < |steps| =>
      if i + 1 < |steps| then Noted(steps[i], steps[i + 1]) else steps[i])
  }

  method AnnotateStepBoundaries(steps: array<Step>)
    modifies steps
    ensures steps[..] == NotedAll(old(steps[..]))
  {
    var i := 0;
    while i + 1 < steps.Length
      invariant 0 <= i && (i == 0 || i < steps.Length)
      invariant forall j :: 0 <= j < i ==> steps[j] == Noted(old(steps[j]), old(steps[j + 1]))
      invariant forall j :: i <= j < steps.Length ==> steps[j] == old(steps[j])
    {
      steps[i] := Noted(steps[i], steps[i + 1]);
      i := i + 1;
    }
  }

  function Or0(o: Option<real>): real {
    match o case None => 0.0 case Some(x) => x
  }

  /** Step gaps and stage transitions noted on all events but the last. */
  function NotedTime(steps: seq<Step>, n: nat): real
    requires n <= |steps|
  {
    if n == 0 then 0.0
    else NotedTime(steps, n - 1) + Or0(steps[n - 1].durationToNext) + Or0(steps[n - 1].transition)
  }

  /** On fresh events, gaps and transitions together account for the whole span, each gap in
      one of the two fields. */
  lemma {:induction false} NotesCoverSpan(steps: seq<Step>, n: nat)
    requires n < |steps|
    requires forall i :: 0 <= i < |steps| ==> steps[i].durationToNext == None && steps[i].transition == None
    ensures NotedTime(NotedAll(steps), n) == steps[n].time - steps[0].time
  {
    if n > 0 {
      NotesCoverSpan(steps, n - 1);
      assert NotedAll(steps)[n - 1] == Noted(steps[n - 1], steps[n]);
    }
  }

  ghost predicate Fresh(steps: seq<Step>) {
    forall i :: 0 <= i < |steps| ==> steps[i].durationToNext == None && steps[i].transition == None
  }

  /** The step durations noted on events of stage g. */
  function Durations(steps: seq<Step>, g: int): seq<real> {
    if steps == [] then []
    else
      var last := steps[|steps| - 1];
      Durations(steps[..|steps| - 1], g)
        + if last.stage == g && last.durationToNext.Some? then [last.durationToNext.value] else []
  }

  /** The step durations noted on a stage's events are exactly the gaps its samples are made of;
      a gap to another stage is noted as a transition, and only such a gap. */
  lemma NotesAreGaps(steps: seq<Step>, g: int)
    requires Fresh(steps)
    ensures Durations(NotedAll(steps), g) == Gaps(steps, g)
    ensures forall i :: 0 <= i < |steps| ==>
      (NotedAll(steps)[i].transition.Some? <==> i + 1 < |steps| && steps[i].stage != steps[i + 1].stage)
  {
    if steps != [] {
      DurationsUpTo(steps, g, |steps| - 1);
      LastUnnoted(steps, g);
      hide Durations, Gaps, Noted;
      assert steps[..|steps| - 1 + 1] == steps;
    }
    forall i | 0 <= i < |steps|
      ensures NotedAll(steps)[i].transition.Some? <==> i + 1 < |steps| && steps[i].stage != steps[i + 1].stage
    {
    }
  }

  lemma LastUnnoted(steps: seq<Step>, g: int)
    requires Fresh(steps) && steps != []
    ensures Durations(NotedAll(steps), g) == Durations(NotedAll(steps)[..|steps| - 1], g)
  {
    assert NotedAll(steps)[|steps| - 1] == steps[|steps| - 1];
  }

  lemma {:induction false} DurationsUpTo(steps: seq<Step>, g: int, n: nat)
    requires Fresh(steps) && n < |steps|
    ensures Durations(NotedAll(steps)[..n], g) == Gaps(steps[..n + 1], g)
  {
    if n == 0 {
      OneStepNoGaps(steps[..1]);
    } else {
      DurationsUpTo(steps, g, n - 1);
      GapsSnoc(steps, n);
      var noted := NotedAll(steps);
      assert noted[..n][..n - 1] == noted[..n - 1] && noted[n - 1] == Noted(steps[n - 1], steps[n]);
      hide Gaps, NotedAll;
    }
  }
}
