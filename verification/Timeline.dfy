/** Projecting a run's events onto the worker's clock before the step timings are taken. */
module Timeline {
  import opened Sequences
  import opened StepTiming
  import opened Wrappers

  datatype Kind = WorkerReady | StepStart | StageEnd | Complete | OtherKind

  /** A trusted event, with the controller's stamp and, if the worker sent one, its own. */
  datatype Event = Event(kind: Kind, stage: int, observed: real, workerNs: Option<int>)

  function OfKind(events: seq<Event>, kind: Kind): (r: seq<Event>)
    ensures forall i :: 0 <= i < |r| ==> r[i].kind == kind && r[i] in events
  {
    if events == [] then []
    else
      var last := events[|events| - 1];
      OfKind(events[..|events| - 1], kind) + if last.kind == kind then [last] else []
  }

  // ----- sorting by the controller's stamp -----

  ghost predicate InOrder(events: seq<Event>) {
    forall i, j :: 0 <= i <= j < |events| ==> events[i].observed <= events[j].observed
  }

  predicate NotLater(a: Event, b: Event) {
    a.observed <= b.observed
  }

  lemma SortSorts(events: seq<Event>)
    ensures InOrder(SortBy(NotLater, events)) && multiset(SortBy(NotLater, events)) == multiset(events)
  {
    SortOrders(NotLater, events);
    hide SortBy;
  }

  lemma SortedStays(events: seq<Event>)
    requires InOrder(events)
    ensures SortBy(NotLater, events) == events
  {
    SortKeeps(NotLater, events);
  }

  // ----- the projection -----

  predicate Stamped(events: seq<Event>) {
    forall i :: 0 <= i < |events| ==> events[i].workerNs.Some?
  }

  /** Worker stamps are used if the first ready event and everything anchored to it have one. */
  predicate Anchored(events: seq<Event>) {
    var ready, complete := OfKind(events, WorkerReady), OfKind(events, Complete);
    && ready != [] && ready[0].workerNs.Some?
    && Stamped(OfKind(events, StepStart)) && Stamped(OfKind(events, StageEnd))
    && (complete != [] ==> complete[0].workerNs.Some?)
  }

  function TimeOf(startedNs: int, anchored: bool, e: Event): real {
    if anchored && e.workerNs.Some? then (e.workerNs.value - startedNs) as real / 1000000000.0 else e.observed
  }

  function StepsFrom(startedNs: int, anchored: bool, sorted: seq<Event>): seq<Step> {
    seq(|sorted|, i requires 0 <= i < |sorted| =>
      Step(sorted[i].stage, TimeOf(startedNs, anchored, sorted[i]), None, None))
  }

  /** The steps in the order they are timed in: sorted by the controller's stamps, and then
      timed by the worker's. */
  function StepsOf(startedNs: int, events: seq<Event>): seq<Step> {
    StepsFrom(startedNs, Anchored(events), SortBy(NotLater, OfKind(events, StepStart)))
  }

  /** The last end of each stage. */
  function EndsFrom(startedNs: int, anchored: bool, ends: seq<Event>): map<int, real> {
    if ends == [] then map[]
    else
      var last := ends[|ends| - 1];
      EndsFrom(startedNs, anchored, ends[..|ends| - 1])[last.stage := TimeOf(startedNs, anchored, last)]
  }

  method Project(startedNs: int, events: seq<Event>) returns (steps: seq<Step>, ends: map<int, real>)
    ensures steps == StepsOf(startedNs, events)
    ensures ends == EndsFrom(startedNs, Anchored(events), OfKind(events, StageEnd))
  {
    hide SortBy, OfKind;
    var anchored := Anchored(events);
    var sorted, stageEnds := SortBy(NotLater, OfKind(events, StepStart)), OfKind(events, StageEnd);
    steps := [];
    for i := 0 to |sorted|
      invariant |steps| == i && steps == StepsFrom(startedNs, anchored, sorted)[..i]
    {
      steps := steps + [Step(sorted[i].stage, TimeOf(startedNs, anchored, sorted[i]), None, None)];
    }
    ends := map[];
    for i := 0 to |stageEnds|
      invariant ends == EndsFrom(startedNs, anchored, stageEnds[..i])
    {
      assert stageEnds[..i + 1][..i] == stageEnds[..i];
      ends := ends[stageEnds[i].stage := TimeOf(startedNs, anchored, stageEnds[i])];
    }
    assert stageEnds[..|stageEnds|] == stageEnds;
  }

  // ----- what is projected -----

  /** Event i is the first of its kind. */
  ghost predicate FirstOf(events: seq<Event>, kind: Kind, i: nat) {
    i < |events| && events[i].kind == kind && forall j :: 0 <= j < i ==> events[j].kind != kind
  }

  lemma {:induction false} OfKindHas(events: seq<Event>, kind: Kind, i: nat)
    requires i < |events| && events[i].kind == kind
    ensures events[i] in OfKind(events, kind)
  {
    if i < |events| - 1 {
      OfKindHas(events[..|events| - 1], kind, i);
    }
  }

  lemma {:induction false} OfKindStarts(events: seq<Event>, kind: Kind, i: nat)
    requires FirstOf(events, kind, i)
    ensures OfKind(events, kind) != [] && OfKind(events, kind)[0] == events[i]
  {
    var n := |events| - 1;
    if i < n {
      assert FirstOf(events[..n], kind, i);
      OfKindStarts(events[..n], kind, i);
    } else {
      NothingOfKind(events[..n], kind);
    }
  }

  lemma SomeOfKind(events: seq<Event>, kind: Kind)
    requires OfKind(events, kind) != []
    ensures exists i :: 0 <= i < |events| && events[i].kind == kind
  {
    var e := OfKind(events, kind)[0];
    var i :| 0 <= i < |events| && events[i] == e;
  }

  lemma NothingOfKind(events: seq<Event>, kind: Kind)
    requires forall i :: 0 <= i < |events| ==> events[i].kind != kind
    ensures OfKind(events, kind) == []
  {
    if OfKind(events, kind) != [] {
      SomeOfKind(events, kind);
    }
  }

  lemma {:induction false} SomeFirst(events: seq<Event>, kind: Kind)
    ensures (exists i: nat :: FirstOf(events, kind, i)) <==> exists i :: 0 <= i < |events| && events[i].kind == kind
  {
    if events != [] {
      var n := |events| - 1;
      SomeFirst(events[..n], kind);
      if i: nat :| FirstOf(events[..n], kind, i) {
        assert FirstOf(events, kind, i);
      } else if events[n].kind == kind {
        assert FirstOf(events, kind, n);
      }
    }
  }

  /** The worker's stamps are used exactly if the worker reported ready, and that first report,
      every step, every stage end and the first completion, if there is one, carry a stamp: one
      event without a stamp, and every time is the controller's. */
  lemma AnchoredExactly(events: seq<Event>)
    ensures Anchored(events) <==>
      && (exists i: nat :: FirstOf(events, WorkerReady, i) && events[i].workerNs.Some?)
      && (forall i :: 0 <= i < |events| && events[i].kind in {StepStart, StageEnd} ==> events[i].workerNs.Some?)
      && (forall i: nat :: FirstOf(events, Complete, i) ==> events[i].workerNs.Some?)
  {
    FirstDecides(events, WorkerReady);
    FirstDecides(events, Complete);
    StampedAll(events, StepStart);
    StampedAll(events, StageEnd);
    hide OfKind, FirstOf, Stamped;
  }

  lemma FirstDecides(events: seq<Event>, kind: Kind)
    ensures OfKind(events, kind) == [] <==> forall i: nat :: !FirstOf(events, kind, i)
    ensures forall i: nat :: FirstOf(events, kind, i) ==>
      OfKind(events, kind) != [] && OfKind(events, kind)[0] == events[i]
  {
    SomeFirst(events, kind);
    forall i: nat | FirstOf(events, kind, i)
      ensures OfKind(events, kind) != [] && OfKind(events, kind)[0] == events[i]
    {
      OfKindStarts(events, kind, i);
    }
    if forall i: nat :: !FirstOf(events, kind, i) {
      NothingOfKind(events, kind);
    }
  }

  lemma StampedAll(events: seq<Event>, kind: Kind)
    ensures Stamped(OfKind(events, kind))
       <==> forall i :: 0 <= i < |events| && events[i].kind == kind ==> events[i].workerNs.Some?
  {
    var found := OfKind(events, kind);
    forall i | 0 <= i < |events| && events[i].kind == kind
      ensures events[i] in found
    {
      OfKindHas(events, kind, i);
    }
    forall i | 0 <= i < |found|
      ensures found[i].kind == kind && found[i] in events
    {
    }
    hide OfKind;
    if Stamped(found) {
      forall i | 0 <= i < |events| && events[i].kind == kind
        ensures events[i].workerNs.Some?
      {
        assert events[i] in found;
      }
    }
  }

  /** The projected steps are the step events in order of the controller's stamps, those observed
      at one time in the order they were handled; each is timed by the controller's stamp or,
      when worker stamps are used, by the nanoseconds between the start and its own. */
  lemma ProjectedSteps(startedNs: int, events: seq<Event>)
    ensures var found := OfKind(events, StepStart);
      var sorted := SortBy(NotLater, found);
      && InOrder(sorted) && multiset(sorted) == multiset(found)
      && (forall e :: Ties(NotLater, e, sorted) == Ties(NotLater, e, found))
      && |StepsOf(startedNs, events)| == |sorted|
      && forall i :: 0 <= i < |sorted| ==>
           var step := StepsOf(startedNs, events)[i];
           && step.stage == sorted[i].stage && step.durationToNext == None && step.transition == None
           && (!Anchored(events) ==> step.time == sorted[i].observed)
           && (Anchored(events) ==>
                 sorted[i].workerNs.Some? && step.time * 1000000000.0 == (sorted[i].workerNs.value - startedNs) as real)
  {
    var found := OfKind(events, StepStart);
    var sorted := SortBy(NotLater, found);
    SortSorts(found);
    forall e
      ensures Ties(NotLater, e, sorted) == Ties(NotLater, e, found)
    {
      SortStable(NotLater, e, found);
    }
    hide SortBy, OfKind, Ties, InOrder;
    assert forall e :: e in multiset(sorted) ==> e in multiset(found);
    forall i | 0 <= i < |sorted| && Anchored(events)
      ensures sorted[i].workerNs.Some?
    {
      assert sorted[i] in multiset(sorted);
    }
  }

  /** A stage ends at the last of its end events, and at none if it has none. */
  lemma {:induction false} LastEndCounts(startedNs: int, anchored: bool, ends: seq<Event>, g: int)
    ensures g in EndsFrom(startedNs, anchored, ends) <==> exists i :: 0 <= i < |ends| && ends[i].stage == g
    ensures forall i :: 0 <= i < |ends| && ends[i].stage == g && (forall j :: i < j < |ends| ==> ends[j].stage != g) ==>
      g in EndsFrom(startedNs, anchored, ends)
      && EndsFrom(startedNs, anchored, ends)[g] == TimeOf(startedNs, anchored, ends[i])
  {
    hide TimeOf;
    if ends != [] {
      LastEndCounts(startedNs, anchored, ends[..|ends| - 1], g);
    }
  }

  // ----- when the timings are non-negative -----

  ghost predicate WorkerInOrder(events: seq<Event>) {
    forall i, j :: 0 <= i <= j < |events| && events[i].workerNs.Some? && events[j].workerNs.Some? ==>
      events[i].workerNs.value <= events[j].workerNs.value
  }

  /** The projected steps are in order of time exactly when worker stamps are not used or do
      not decrease along the observed order. */
  lemma ProjectedSorted(startedNs: int, events: seq<Event>)
    ensures Sorted(StepsOf(startedNs, events))
      <==> !Anchored(events) || WorkerInOrder(SortBy(NotLater, OfKind(events, StepStart)))
  {
    var found := OfKind(events, StepStart);
    var sorted := SortBy(NotLater, found);
    var steps := StepsOf(startedNs, events);
    SortSorts(found);
    hide SortBy, OfKind;
    if Anchored(events) {
      assert forall e :: e in multiset(sorted) ==> e in multiset(found);
      forall i | 0 <= i < |sorted|
        ensures sorted[i].workerNs.Some?
        ensures steps[i].time == (sorted[i].workerNs.value - startedNs) as real / 1000000000.0
      {
        assert sorted[i] in multiset(sorted);
      }
      hide Anchored, InOrder;
      assert forall i, j :: 0 <= i <= j < |sorted| ==>
        (steps[i].time <= steps[j].time <==> sorted[i].workerNs.value <= sorted[j].workerNs.value);
    }
  }

  /** Steps read from one pipe are observed in the order they are handled, and then the worker's
      stamps are in order of handling or the timings are not in order of time. */
  lemma OnePipeSorted(startedNs: int, events: seq<Event>)
    requires InOrder(OfKind(events, StepStart))
    ensures Sorted(StepsOf(startedNs, events)) <==> !Anchored(events) || WorkerInOrder(OfKind(events, StepStart))
  {
    ProjectedSorted(startedNs, events);
    SortedStays(OfKind(events, StepStart));
  }

  predicate NoteNonNegative(s: Step) {
    Or0(s.durationToNext) >= 0.0 && Or0(s.transition) >= 0.0
  }

  lemma OneNote(current: Step, following: Step)
    requires current.durationToNext == None && current.transition == None
    ensures NoteNonNegative(Noted(current, following)) <==> current.time <= following.time
  {
  }

  lemma LastNote(steps: seq<Step>)
    requires steps != [] && steps[|steps| - 1].durationToNext == None && steps[|steps| - 1].transition == None
    ensures NoteNonNegative(NotedAll(steps)[|steps| - 1])
  {
  }

  predicate InStep(steps: seq<Step>, i: nat) {
    i + 1 < |steps| ==> steps[i].time <= steps[i + 1].time
  }

  lemma {:induction false} Stepwise(steps: seq<Step>, i: nat, j: nat)
    requires i <= j < |steps| && forall k: nat :: k < |steps| ==> InStep(steps, k)
    ensures steps[i].time <= steps[j].time
  {
    if i < j {
      Stepwise(steps, i, j - 1);
      assert InStep(steps, j - 1);
    }
  }

  lemma StepwiseSorted(steps: seq<Step>)
    ensures Sorted(steps) <==> forall k: nat :: k < |steps| ==> InStep(steps, k)
  {
    if forall k: nat :: k < |steps| ==> InStep(steps, k) {
      forall i, j | 0 <= i <= j < |steps|
        ensures steps[i].time <= steps[j].time
      {
        Stepwise(steps, i, j);
      }
    }
  }

  /** No note is negative exactly when the steps are in order of time. */
  lemma NotesNonNegative(steps: seq<Step>)
    requires forall i :: 0 <= i < |steps| ==> steps[i].durationToNext == None && steps[i].transition == None
    ensures Sorted(steps) <==> forall i :: 0 <= i < |steps| ==> NoteNonNegative(NotedAll(steps)[i])
  {
    StepwiseSorted(steps);
    hide NoteNonNegative, Noted, Sorted;
    forall i: nat | i < |steps|
      ensures NoteNonNegative(NotedAll(steps)[i]) <==> InStep(steps, i)
    {
      if i + 1 < |steps| {
        OneNote(steps[i], steps[i + 1]);
      } else {
        LastNote(steps);
      }
    }
    hide InStep;
  }

  lemma OfKindSnoc(events: seq<Event>, e: Event, kind: Kind)
    ensures OfKind(events + [e], kind) == OfKind(events, kind) + if e.kind == kind then [e] else []
  {
    assert (events + [e])[..|events|] == events;
  }

  lemma KindsOfThree(x: Event, y: Event, z: Event, kind: Kind)
    ensures OfKind([x, y, z], kind) == (if x.kind == kind then [x] else [])
         + (if y.kind == kind then [y] else []) + if z.kind == kind then [z] else []
  {
    hide OfKind;
    OfKindSnoc([], x, kind);
    OfKindSnoc([x], y, kind);
    OfKindSnoc([x, y], z, kind);
    assert [] + [x] == [x] && [x] + [y] == [x, y] && [x, y] + [z] == [x, y, z];
    NoneOfKind(kind);
  }

  lemma NoneOfKind(kind: Kind)
    ensures OfKind([], kind) == []
  {
  }

  lemma SamplesOfTwo(a: Step, b: Step, ends: map<int, real>)
    requires a.stage == b.stage && a.stage !in ends
    ensures Samples([a, b], ends, a.stage) == [b.time - a.time]
  {
    assert [a, b][..1] == [a];
    assert Gaps([a], a.stage) == [];
  }

  function Ready(startedNs: int): Event {
    Event(WorkerReady, 0, 0.0, Some(startedNs))
  }

  /** A step of stage g, observed at one time and stamped by the worker at another. */
  function StepAt(startedNs: int, g: int, observed: real, seconds: int): Event {
    Event(StepStart, g, observed, Some(startedNs + seconds * 1000000000))
  }

  lemma StampedAt(startedNs: int, g: int, observed: real, seconds: int)
    ensures TimeOf(startedNs, true, StepAt(startedNs, g, observed, seconds)) == seconds as real
  {
  }

  lemma AnchoredSteps(startedNs: int, x: Event, y: Event)
    requires x.kind == y.kind == StepStart && x.workerNs.Some? && y.workerNs.Some?
    ensures Anchored([Ready(startedNs), x, y]) && OfKind([Ready(startedNs), x, y], StepStart) == [x, y]
  {
    var ready := Ready(startedNs);
    KindsOfThree(ready, x, y, WorkerReady);
    KindsOfThree(ready, x, y, StepStart);
    KindsOfThree(ready, x, y, StageEnd);
    KindsOfThree(ready, x, y, Complete);
    hide OfKind;
  }

  lemma TwoSteps(startedNs: int, g: int)
    ensures var events := [Ready(startedNs), StepAt(startedNs, g, 3.0, 2), StepAt(startedNs, g, 4.0, 1)];
      StepsOf(startedNs, events) == [Step(g, 2.0, None, None), Step(g, 1.0, None, None)]
  {
    var x, y := StepAt(startedNs, g, 3.0, 2), StepAt(startedNs, g, 4.0, 1);
    AnchoredSteps(startedNs, x, y);
    SortedStays([x, y]);
    StampedAt(startedNs, g, 3.0, 2);
    StampedAt(startedNs, g, 4.0, 1);
    hide OfKind, SortBy, TimeOf, Anchored, Ready;
    assert StepsFrom(startedNs, true, [x, y]) == [Step(g, 2.0, None, None), Step(g, 1.0, None, None)];
  }

  /** Two steps handled in the opposite of the order the worker stamped them in, as can happen to
      a worker that writes on both pipes: the sample of their stage is negative once the worker's
      stamps replace the observed ones. */
  lemma RetimedNegative(startedNs: int, g: int, ends: map<int, real>)
    requires g !in ends
    ensures var events := [Ready(startedNs), StepAt(startedNs, g, 3.0, 2), StepAt(startedNs, g, 4.0, 1)];
      Samples(StepsOf(startedNs, events), ends, g) == [-1.0]
  {
    TwoSteps(startedNs, g);
    hide StepsOf, Samples, Ready, StepAt;
    SamplesOfTwo(Step(g, 2.0, None, None), Step(g, 1.0, None, None), ends);
  }
}
