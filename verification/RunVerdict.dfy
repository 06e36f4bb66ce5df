/** One measured run: the fingerprint checks around it, the polling loop with its deadline,
    the cleanup, and the verdict. */
module RunVerdict {
  import opened ProcessGroup
  import opened Wrappers

  /** What taking a stat fingerprint gave: a digest, or an OSError. */
  datatype Fingerprint = Digest(value: string) | Unreadable

  datatype IntegrityError =
    | ModelUnreadableBefore | ModelChangedBefore | RuntimeUnreadableBefore | RuntimeChangedBefore
    | GroupSurvived | ReadersSurvived
    | ModelUnreadableAfter | ModelChangedAfter | RuntimeUnreadableAfter | RuntimeChangedAfter

  datatype Status = Completed | Failed

  /** Kinds of events the readers trusted during the run. */
  datatype Kind = WorkerReady | StepStart | StageEnd | Complete | WorkerError

  /** One turn of the polling loop: the clock before and after the probes, or a probe that
      raises. */
  datatype Turn = Turn(now: real, raises: bool, afterProbes: real)

  /** Everything the run meets and does not control. */
  datatype Meets = Meets(
    model: string, modelBefore: Fingerprint, modelAfter: Fingerprint,
    runtime: Option<string>, runtimeBefore: Fingerprint, runtimeAfter: Fingerprint,
    launches: bool,
    turns: seq<Turn>, deadline: real, patience: nat,
    readersLate: bool, readersSurvive: bool,
    events: seq<Kind>, returncode: int, writesArtifact: bool)

  datatype Result = Result(
    status: Status, deadlineExceeded: bool, returncode: Option<int>,
    integrityError: Option<IntegrityError>, launchError: bool, output: bool)

  /** A run reports its result, unless an exception escapes from it. */
  datatype Outcome = Reported(result: Result) | Escaped

  predicate Matches(f: Fingerprint, expected: string) {
    f == Digest(expected)
  }

  function Or(error: Option<IntegrityError>, next: IntegrityError): Option<IntegrityError> {
    if error.Some? then error else Some(next)
  }

  /** The first of two errors. */
  function First(error: Option<IntegrityError>, next: Option<IntegrityError>): Option<IntegrityError> {
    if error.Some? then error else next
  }

  /** What a fingerprint that does not match is noted as. */
  function Mismatch(f: Fingerprint, expected: string, unreadable: IntegrityError, changed: IntegrityError):
      Option<IntegrityError> {
    if Matches(f, expected) then None else if f == Unreadable then Some(unreadable) else Some(changed)
  }

  /** What both fingerprints give: the model's error goes first, and the runtime counts only if
      its fingerprint was recorded. */
  function ErrorBefore(m: Meets): Option<IntegrityError> {
    First(Mismatch(m.modelBefore, m.model, ModelUnreadableBefore, ModelChangedBefore),
          if m.runtime.None? then None
          else Mismatch(m.runtimeBefore, m.runtime.value, RuntimeUnreadableBefore, RuntimeChangedBefore))
  }

  function ErrorAfter(m: Meets): Option<IntegrityError> {
    First(Mismatch(m.modelAfter, m.model, ModelUnreadableAfter, ModelChangedAfter),
          if m.runtime.None? then None
          else Mismatch(m.runtimeAfter, m.runtime.value, RuntimeUnreadableAfter, RuntimeChangedAfter))
  }

  /** The error of a fingerprint check: that of the model, and failing that of the runtime. */
  predicate ErrorIs(error: Option<IntegrityError>, m: Meets, model: Fingerprint, runtime: Fingerprint,
      modelUnreadable: IntegrityError, modelChanged: IntegrityError,
      runtimeUnreadable: IntegrityError, runtimeChanged: IntegrityError)
  {
    && (model == Unreadable ==> error == Some(modelUnreadable))
    && (model != Unreadable && model != Digest(m.model) ==> error == Some(modelChanged))
    && (model == Digest(m.model) && m.runtime.None? ==> error == None)
    && (model == Digest(m.model) && m.runtime.Some? ==>
          && (runtime == Unreadable ==> error == Some(runtimeUnreadable))
          && (runtime != Unreadable && runtime != Digest(m.runtime.value) ==> error == Some(runtimeChanged))
          && (runtime == Digest(m.runtime.value) ==> error == None))
  }

  /** The first fingerprint that cannot be read or does not match is the error. */
  lemma FirstErrorCounts(m: Meets)
    ensures ErrorIs(ErrorBefore(m), m, m.modelBefore, m.runtimeBefore,
                    ModelUnreadableBefore, ModelChangedBefore, RuntimeUnreadableBefore, RuntimeChangedBefore)
    ensures ErrorIs(ErrorAfter(m), m, m.modelAfter, m.runtimeAfter,
                    ModelUnreadableAfter, ModelChangedAfter, RuntimeUnreadableAfter, RuntimeChangedAfter)
  {
  }

  // ----- how the polling loop ends -----

  /** Clocks advance: the last turn that could be taken is past the deadline. */
  predicate ClockAdvances(m: Meets) {
    |m.turns| > 0 && m.turns[|m.turns| - 1].now > m.deadline
  }

  /** The clock is past the deadline before the probes of the turn, or after them. */
  predicate Late(m: Meets, t: Turn) {
    t.now > m.deadline || (!t.raises && t.afterProbes > m.deadline)
  }

  /** A probe of the turn raises; a turn that is late before its probes takes none. */
  predicate Breaks(m: Meets, t: Turn) {
    t.now <= m.deadline && t.raises
  }

  /** The loop looks at the leader before each turn. All looks but the last find it unfinished,
      and all turns but the one after the last look are neither late nor broken; if that look
      found the leader unfinished, the turn after it is late or broken. */
  ghost predicate Polled(m: Meets, looks: seq<bool>) {
    && 0 < |looks| <= |m.turns|
    && (forall i :: 0 <= i < |looks| - 1 ==> !looks[i] && !Late(m, m.turns[i]) && !Breaks(m, m.turns[i]))
    && (Last(looks) || Late(m, m.turns[|looks| - 1]) || Breaks(m, m.turns[|looks| - 1]))
  }

  /** The loop ended because the leader had finished, before any turn was late or broken. */
  predicate Finished(looks: seq<bool>) {
    looks != [] && Last(looks)
  }

  predicate Overran(m: Meets, looks: seq<bool>) {
    0 < |looks| <= |m.turns| && !Last(looks) && Late(m, m.turns[|looks| - 1])
  }

  predicate Broke(m: Meets, looks: seq<bool>) {
    0 < |looks| <= |m.turns| && !Last(looks) && Breaks(m, m.turns[|looks| - 1])
  }

  /** The loop ends in one way: the leader had finished, the deadline had passed or a probe
      raised; and it had finished only if every clock reading until then was in time. */
  lemma OneEnding(m: Meets, looks: seq<bool>)
    requires Polled(m, looks)
    ensures Finished(looks) || Overran(m, looks) || Broke(m, looks)
    ensures !(Finished(looks) && Overran(m, looks)) && !(Finished(looks) && Broke(m, looks))
    ensures !(Overran(m, looks) && Broke(m, looks))
    ensures Finished(looks) ==> forall i :: 0 <= i < |looks| - 1 ==>
      m.turns[i].now <= m.deadline && !m.turns[i].raises && m.turns[i].afterProbes <= m.deadline
  {
    forall i | 0 <= i < |looks| - 1
      ensures m.turns[i].now <= m.deadline && !m.turns[i].raises && m.turns[i].afterProbes <= m.deadline
    {
      assert !looks[i] && !Late(m, m.turns[i]) && !Breaks(m, m.turns[i]);
    }
  }

  /** The polling loop's looks are all but the last: stopping the group takes one more. */
  function LoopLooks(looks: seq<bool>): seq<bool> {
    if looks == [] then [] else looks[..|looks| - 1]
  }

  predicate RuntimeMatches(m: Meets, f: Fingerprint) {
    m.runtime.None? || Matches(f, m.runtime.value)
  }

  predicate ReadersAlive(m: Meets) {
    m.readersLate && m.readersSurvive
  }

  /** The controller of one run. `artifact` says whether the output file exists. */
  class Controller {
    const m: Meets
    const k: Kernel
    var integrityError: Option<IntegrityError>
    var deadlineExceeded: bool
    var terminated: bool
    var artifact: bool

    constructor (m: Meets, k: Kernel, stale: bool)
      ensures this.m == m && this.k == k
      ensures integrityError == None && !deadlineExceeded && !terminated && artifact == stale
    {
      this.m, this.k := m, k;
      integrityError, deadlineExceeded, terminated, artifact := None, false, false, stale;
    }

    /** Compares one fingerprint with the recorded one; an error already noted stays. */
    method Check(f: Fingerprint, expected: string, unreadable: IntegrityError, changed: IntegrityError)
      modifies `integrityError
      ensures integrityError == First(old(integrityError), Mismatch(f, expected, unreadable, changed))
    {
      match f {
        case Unreadable =>
          integrityError := Or(integrityError, unreadable);
        case Digest(value) =>
          if value != expected {
            integrityError := Or(integrityError, changed);
          }
      }
    }

    /** Both fingerprints; the runtime's only if one was recorded. */
    method CheckAll(model: Fingerprint, runtime: Fingerprint,
        modelUnreadable: IntegrityError, modelChanged: IntegrityError,
        runtimeUnreadable: IntegrityError, runtimeChanged: IntegrityError)
      modifies `integrityError
      ensures integrityError
        == First(old(integrityError),
             First(Mismatch(model, m.model, modelUnreadable, modelChanged),
               if m.runtime.None? then None
               else Mismatch(runtime, m.runtime.value, runtimeUnreadable, runtimeChanged)))
      ensures integrityError == None <==>
        old(integrityError) == None && Matches(model, m.model) && RuntimeMatches(m, runtime)
    {
      Check(model, m.model, modelUnreadable, modelChanged);
      if m.runtime.Some? {
        Check(runtime, m.runtime.value, runtimeUnreadable, runtimeChanged);
      }
    }

    /** The idempotent cleanup wrapper: a second call reports success without looking. */
    method TerminateWorker() returns (e: Ending)
      requires k.Valid() && (!terminated ==> k.Untouched())
      modifies `terminated, k
      ensures terminated && k.Valid()
      ensures old(terminated) ==> e == Answer(true) && unchanged(k)
      ensures !old(terminated) ==> (
        Escalated(k.sent, k.waits) && !k.misdirected && (k.sent == [] ==> k.leader == Reaped)
        && k.looks == old(k.looks) + [k.sent == []] && (old(k.leader) == Reaped ==> k.sent == [])
        && (e == Answer(true) ==> k.leader == Reaped)
        && (k.Gone() <==> e == Answer(true)) && (k.Refused() <==> e == Raised))
    {
      if terminated {
        return Answer(true);
      }
      terminated := true;
      var cleanupFailed;
      e, cleanupFailed := TerminateProcessGroup(k, m.patience);
    }

    /** Notes a group that survives its cleanup. */
    method StopGroup() returns (raised: bool)
      requires k.Valid() && (!terminated ==> k.Untouched())
      modifies `terminated, `integrityError, k
      ensures terminated && k.Valid()
      ensures old(terminated) ==> !raised && integrityError == old(integrityError) && unchanged(k)
      ensures !old(terminated) ==> (
        Escalated(k.sent, k.waits) && !k.misdirected && (k.sent == [] ==> k.leader == Reaped)
        && k.looks == old(k.looks) + [k.sent == []] && (old(k.leader) == Reaped ==> k.sent == [])
        && (k.Gone() ==> k.leader == Reaped) && (k.Refused() <==> raised)
        && integrityError == if raised || k.Gone() then old(integrityError) else Or(old(integrityError), GroupSurvived))
      ensures raised ==> !k.Gone()
    {
      var e := TerminateWorker();
      raised := e == Raised;
      if e == Answer(false) {
        integrityError := Or(integrityError, GroupSurvived);
      }
    }

    /** The polling loop ends at the first look that finds the leader finished, the first clock
        reading past the deadline, or the first probe that raises. */
    method PollUntilDone() returns (raised: bool)
      requires k.Valid() && k.Untouched() && k.looks == [] && !deadlineExceeded && ClockAdvances(m)
      modifies `deadlineExceeded, k`leader, k`othersAlive, k`reused, k`looks
      ensures k.Valid() && Polled(m, k.looks)
      ensures Finished(k.looks) <==> k.leader == Reaped
      ensures Finished(k.looks) <==> !raised && !deadlineExceeded
      ensures deadlineExceeded <==> Overran(m, k.looks)
      ensures raised <==> Broke(m, k.looks)
    {
      var i := 0;
      while true
        invariant k.Valid() && 0 <= i == |k.looks| < |m.turns| && !deadlineExceeded
        invariant forall j :: 0 <= j < i ==> !k.looks[j] && !Late(m, m.turns[j]) && !Breaks(m, m.turns[j])
        decreases |m.turns| - i
      {
        var finished := k.Poll();
        if finished {
          return false;
        }
        if m.turns[i].now > m.deadline {
          deadlineExceeded := true;
          return false;
        }
        if m.turns[i].raises {
          return true;
        }
        if m.turns[i].afterProbes > m.deadline {
          deadlineExceeded := true;
          return false;
        }
        i := i + 1;
      }
    }

    /** The guarded part of a run: polling, stopping the group, joining the readers; and, however
        it ends, stopping the group if that has not been tried. A reader that survives replaces
        an earlier error; nothing removes one. */
    method Guarded() returns (raised: bool, readersAlive: bool)
      requires k.Valid() && k.Untouched() && k.looks == [] && !terminated && !deadlineExceeded && ClockAdvances(m)
      modifies `deadlineExceeded, `terminated, `integrityError, k
      ensures k.Valid() && terminated && !k.misdirected
      ensures Escalated(k.sent, k.waits) && (k.sent == [] ==> k.leader == Reaped)
      ensures Polled(m, LoopLooks(k.looks)) && |k.looks| >= 2 && Last(k.looks) == (k.sent == [])
      ensures Finished(LoopLooks(k.looks)) ==> k.sent == []
      ensures deadlineExceeded <==> Overran(m, LoopLooks(k.looks))
      ensures k.Gone() ==> k.leader == Reaped
      ensures raised <==> k.Refused() || Broke(m, LoopLooks(k.looks))
      ensures !raised ==> readersAlive == ReadersAlive(m)
      ensures !raised ==> (
        integrityError == if ReadersAlive(m) then Some(ReadersSurvived)
                          else if k.Gone() then old(integrityError) else Or(old(integrityError), GroupSurvived))
    {
      readersAlive := false;
      raised := PollUntilDone();
      ghost var looks := k.looks;
      if !raised {
        raised := StopGroup();
        assert LoopLooks(k.looks) == looks;
        if !raised && m.readersLate {
          readersAlive := m.readersSurvive;
          if readersAlive {
            integrityError := Some(ReadersSurvived);
          }
        }
      }
      var again := StopGroup();
      assert LoopLooks(k.looks) == looks;
      raised := raised || again;
    }

    /** The branches that decide the status, and what is left of a run that failed. A leader
        that was never reaped has no return code. */
    method Verdict(readersAlive: bool) returns (r: Result)
      requires artifact == m.writesArtifact
      modifies `artifact
      ensures r.returncode == if k.leader == Reaped then Some(m.returncode) else None
      ensures r.status == Completed <==>
        k.leader == Reaped && m.returncode == 0 && Complete in m.events && WorkerError !in m.events
        && !deadlineExceeded && !readersAlive && integrityError == None
      ensures r.output <==> r.status == Completed && m.writesArtifact
      ensures artifact <==> r.status == Completed && m.writesArtifact
      ensures r.integrityError == integrityError && r.deadlineExceeded == deadlineExceeded && !r.launchError
    {
      var returncode := if k.leader == Reaped then Some(m.returncode) else None;
      var completed := returncode == Some(0) && Complete in m.events;
      var status := if completed && !deadlineExceeded && WorkerError !in m.events then Completed else Failed;
      if readersAlive {
        status := Failed;
      }
      if integrityError.Some? {
        status := Failed;
      }
      if status != Completed {
        artifact := false;
      }
      r := Result(status, deadlineExceeded, returncode, integrityError, false, status == Completed && artifact);
    }

    /** The run gets as far as its worker. */
    predicate Starts() {
      ErrorBefore(m) == None && m.launches
    }

    /** The whole run, from removing a stale artifact to the verdict.

        A run that does not get as far as its worker fails, touches no group and reports why. Any
        other looks at the leader turn by turn, then stops its group, however the loop ended:
        nothing is signalled only if the leader had finished, and KILL is sent only after a TERM
        whose wait expired. The run is completed exactly if the leader finished before any clock
        reading was late, with success and a complete event, both fingerprints match before and
        after, no reader survives and the group is seen to be gone.

        An exception escapes exactly when a probe of the loop raises or a signal or existence
        probe is refused; the run then reports nothing, and its artifact is left as only a
        completed run's is otherwise. */
    method RunOnce() returns (o: Outcome)
      requires k.Valid() && k.leader == Running && k.Untouched() && k.looks == []
      requires integrityError == None && !deadlineExceeded && !terminated && ClockAdvances(m)
      modifies this, k
      ensures !Starts() ==> unchanged(k) && o == Reported(
        Result(Failed, false, None, ErrorBefore(m), ErrorBefore(m) == None, false))
      ensures Starts() ==>
        Escalated(k.sent, k.waits) && !k.misdirected && (k.sent == [] ==> k.leader == Reaped)
      ensures Starts() ==> Polled(m, LoopLooks(k.looks)) && (Finished(LoopLooks(k.looks)) ==> k.sent == [])
      ensures o.Escaped? <==> Starts() && (k.Refused() || Broke(m, LoopLooks(k.looks)))
      ensures o.Reported? ==> (o.result.status == Completed <==>
        Matches(m.modelBefore, m.model) && Matches(m.modelAfter, m.model)
        && RuntimeMatches(m, m.runtimeBefore) && RuntimeMatches(m, m.runtimeAfter)
        && m.launches && m.returncode == 0 && Complete in m.events && WorkerError !in m.events
        && Finished(LoopLooks(k.looks)) && !ReadersAlive(m) && k.Gone())
      ensures o.Reported? && Starts() ==> (
        o.result.integrityError == if ReadersAlive(m) then Some(ReadersSurvived)
                                   else if !k.Gone() then Some(GroupSurvived) else ErrorAfter(m))
      ensures o.Reported? ==> (o.result.deadlineExceeded <==> Starts() && Overran(m, LoopLooks(k.looks)))
      ensures o.Reported? ==> (o.result.launchError <==> ErrorBefore(m) == None && !m.launches)
      ensures o.Reported? ==> (o.result.output <==> o.result.status == Completed && m.writesArtifact)
      ensures o.Reported? && Starts() ==>
        o.result.returncode == if k.leader == Reaped then Some(m.returncode) else None
      ensures artifact <==> m.writesArtifact && (o.Escaped? || o.result.status == Completed)
    {
      artifact := false;
      CheckAll(m.modelBefore, m.runtimeBefore,
               ModelUnreadableBefore, ModelChangedBefore, RuntimeUnreadableBefore, RuntimeChangedBefore);
      if integrityError.Some? {
        return Reported(Result(Failed, false, None, integrityError, false, false));
      }
      if !m.launches {
        return Reported(Result(Failed, false, None, None, true, false));
      }
      artifact := m.writesArtifact;
      var raised, readersAlive := Guarded();
      if raised {
        return Escaped;
      }
      CheckAll(m.modelAfter, m.runtimeAfter,
               ModelUnreadableAfter, ModelChangedAfter, RuntimeUnreadableAfter, RuntimeChangedAfter);
      var r := Verdict(readersAlive);
      o := Reported(r);
    }
  }
}
