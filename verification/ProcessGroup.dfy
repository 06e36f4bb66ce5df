/** Stopping the worker's process group without ever signalling a reused group identity. */
module ProcessGroup {

  datatype Leader = Running | Exited | Reaped
  datatype Signal = Term | Kill

  /** What a system call to the group gave: success, the lookup error, or a permission error,
      which nothing here catches. */
  datatype Reply = Done | Missing | Forbidden

  /** A signal sent: whether the leader was still unreaped at that moment, and the reply. */
  datatype Sending = Sending(signal: Signal, pinned: bool, reply: Reply)

  /** The kernel's view of one process group, and of its numeric identity.

      Between any two actions of the controller a running leader may start other members and may
      exit, the other members may start more of themselves or disappear, and, once the leader is
      reaped and nobody is left, the identity may be given to an unrelated group. Only the
      controller reaps the leader. */
  class Kernel {
    var leader: Leader
    var othersAlive: bool
    var reused: bool
    /** What the controller asked and was told: which polls found the leader finished, which
        waits expired, the signals sent, and the replies to existence probes. */
    var looks: seq<bool>
    var waits: seq<bool>
    var sent: seq<Sending>
    var probes: seq<Reply>
    /** Some signal went to an unrelated group. */
    var misdirected: bool

    predicate Valid()
      reads this
    {
      && (reused ==> leader == Reaped && !othersAlive)
      && (Gone() ==> leader == Reaped && !othersAlive)
    }

    /** Some existence probe found no group. */
    predicate Gone()
      reads this
    {
      Missing in probes
    }

    /** Some signal or existence probe was refused. */
    predicate Refused()
      reads this
    {
      Forbidden in probes || exists i :: 0 <= i < |sent| && sent[i].reply == Forbidden
    }

    /** Nothing has been asked of the group. */
    predicate Untouched()
      reads this
    {
      waits == [] && sent == [] && probes == [] && !misdirected
    }

    constructor ()
      ensures Valid() && leader == Running && Untouched() && looks == [] && !reused
    {
      leader, othersAlive, reused := Running, true, false;
      looks, waits, sent, probes, misdirected := [], [], [], [], false;
    }

    /** What the rest of the system may do meanwhile. */
    method Drift()
      requires Valid()
      modifies `leader, `othersAlive, `reused
      ensures Valid()
      ensures leader == old(leader) || (old(leader) == Running && leader == Exited)
      ensures othersAlive ==> old(othersAlive) || old(leader) == Running
      ensures old(reused) ==> reused
    {
      if * {
        if leader == Running {
          othersAlive := true;
        }
      }
      if * {
        othersAlive := false;
      }
      if * {
        if leader == Running {
          leader := Exited;
        }
      }
      if * {
        if leader == Reaped && !othersAlive {
          reused := true;
        }
      }
    }

    /** A look at the leader, which reaps it if it has exited. */
    method Look() returns (finished: bool)
      requires Valid()
      modifies `leader, `othersAlive, `reused
      ensures Valid() && (finished <==> leader == Reaped)
      ensures old(leader) == Reaped ==> finished
    {
      Drift();
      if leader == Exited {
        leader := Reaped;
      }
      finished := leader == Reaped;
    }

    /** Popen.poll. */
    method Poll() returns (finished: bool)
      requires Valid()
      modifies `leader, `othersAlive, `reused, `looks
      ensures Valid() && (finished <==> leader == Reaped)
      ensures old(leader) == Reaped ==> finished
      ensures looks == old(looks) + [finished]
    {
      finished := Look();
      looks := looks + [finished];
    }

    /** Popen.wait with a timeout. A wait that expires reaps nothing, though the leader may
        exit just after its last look. */
    method Wait() returns (expired: bool)
      requires Valid()
      modifies `leader, `othersAlive, `reused, `waits
      ensures Valid() && (expired <==> leader != Reaped)
      ensures old(leader) == Reaped ==> !expired
      ensures waits == old(waits) + [expired]
    {
      var finished := Look();
      expired := !finished;
      if expired {
        Drift();
      }
      waits := waits + [expired];
    }

    /** os.killpg. */
    method Send(signal: Signal) returns (reply: Reply)
      requires Valid()
      modifies `leader, `othersAlive, `reused, `sent, `misdirected
      ensures Valid() && (leader == old(leader) || (old(leader) == Running && leader == Exited))
      ensures sent == old(sent) + [Sending(signal, leader != Reaped, reply)]
      ensures misdirected <==> old(misdirected) || reused
    {
      Drift();
      reply := *;
      sent := sent + [Sending(signal, leader != Reaped, reply)];
      misdirected := misdirected || reused;
    }

    /** os.killpg with signal 0. An existing group may refuse it. */
    method Exists() returns (reply: Reply)
      requires Valid()
      modifies `leader, `othersAlive, `reused, `probes
      ensures Valid() && (leader == old(leader) || (old(leader) == Running && leader == Exited))
      ensures reply != Missing <==> leader != Reaped || othersAlive || reused
      ensures probes == old(probes) + [reply]
    {
      Drift();
      if leader != Reaped || othersAlive || reused {
        reply := *;
        if reply == Missing {
          reply := Done;
        }
      } else {
        reply := Missing;
      }
      probes := probes + [reply];
    }
  }

  /** How a call ended: with an answer, or with an exception. */
  datatype Ending = Answer(ok: bool) | Raised

  function Last<T>(s: seq<T>): T
    requires s != []
  {
    s[|s| - 1]
  }

  /** A wait for the group's end: probes until one does not find the group, at most
      `patience + 1` of them; it succeeds exactly if the last found none, and raises exactly if
      the last was refused. */
  ghost predicate Awaits(probes: seq<Reply>, patience: nat, e: Ending) {
    && 0 < |probes| <= patience + 1
    && (forall i :: 0 <= i < |probes| - 1 ==> probes[i] == Done)
    && (e == Answer(true) <==> Last(probes) == Missing)
    && (e == Raised <==> Last(probes) == Forbidden)
    && (e == Answer(false) <==> Last(probes) == Done && |probes| == patience + 1)
  }

  /** `patience` counts the probes that fit before the deadline. */
  method WaitForProcessGroupExit(k: Kernel, patience: nat) returns (e: Ending)
    requires k.Valid() && k.probes == []
    modifies k`leader, k`othersAlive, k`reused, k`probes
    ensures k.Valid() && Awaits(k.probes, patience, e)
    ensures old(k.leader) == Reaped ==> k.leader == Reaped
    ensures e == Answer(true) ==> k.leader == Reaped
  {
    var left := patience;
    while true
      invariant k.Valid() && |k.probes| + left == patience
      invariant forall i :: 0 <= i < |k.probes| ==> k.probes[i] == Done
      invariant old(k.leader) == Reaped ==> k.leader == Reaped
      decreases left
    {
      var reply := k.Exists();
      if reply == Missing {
        return Answer(true);
      }
      if reply == Forbidden {
        return Raised;
      }
      if left == 0 {
        return Answer(false);
      }
      left := left - 1;
    }
  }

  /** At most a TERM and then a KILL, each while the leader was unreaped. */
  ghost predicate Orderly(sent: seq<Sending>) {
    && |sent| <= 2
    && (|sent| >= 1 ==> sent[0].signal == Term && sent[0].pinned)
    && (|sent| == 2 ==> sent[1].signal == Kill && sent[1].pinned)
  }

  predicate RefusedLast(sent: seq<Sending>) {
    sent != [] && Last(sent).reply == Forbidden
  }

  /** Every signal that is not refused is followed by one wait for the leader, and KILL follows
      exactly a TERM that was delivered and whose wait expired. */
  ghost predicate Escalated(sent: seq<Sending>, waits: seq<bool>) {
    && Orderly(sent)
    && |waits| == |sent| - (if RefusedLast(sent) then 1 else 0)
    && (|sent| == 2 <==> |sent| > 0 && sent[0].reply == Done && |waits| > 0 && waits[0])
  }

  /** Whatever the group and the rest of the system do in between:

      - nothing is signalled exactly if the first look finds the leader finished;
      - otherwise TERM is sent, and KILL if and only if TERM was delivered and the wait after it
        expired, each while the leader is unreaped, so no unrelated group is reached;
      - the cleanup has failed exactly if the wait after KILL expired;
      - the answer is no exactly then, or after a TERM that found no group and whose wait
        expired, or if every one of `patience + 1` probes found the group;
      - the answer is yes exactly if the last probe found no group, and the leader is then reaped;
      - an exception is raised exactly if the last signal or the last probe was refused. */
  method TerminateProcessGroup(k: Kernel, patience: nat) returns (e: Ending, cleanupFailed: bool)
    requires k.Valid() && k.Untouched()
    modifies k
    ensures k.Valid() && Escalated(k.sent, k.waits) && !k.misdirected
    ensures k.looks == old(k.looks) + [k.sent == []]
    ensures k.sent == [] ==> k.leader == Reaped
    ensures old(k.leader) == Reaped ==> k.sent == []
    ensures cleanupFailed <==> |k.waits| == 2 && k.waits[1]
    ensures e == Answer(false) <==>
      cleanupFailed
      || (|k.sent| == 1 && k.sent[0].reply == Missing && |k.waits| == 1 && k.waits[0])
      || (|k.probes| == patience + 1 && forall i :: 0 <= i <= patience ==> k.probes[i] == Done)
    ensures e == Answer(true) <==> k.probes != [] && Last(k.probes) == Missing
    ensures e == Answer(true) ==> k.leader == Reaped
    ensures e == Raised <==> RefusedLast(k.sent) || (k.probes != [] && Last(k.probes) == Forbidden)
    ensures k.Gone() <==> e == Answer(true)
    ensures k.Refused() <==> e == Raised
  {
    cleanupFailed := false;
    var finished := k.Poll();
    if finished {
      e := WaitForProcessGroupExit(k, patience);
      return;
    }
    var reply := k.Send(Term);
    if reply == Forbidden {
      return Raised, false;
    }
    if reply == Missing {
      var late := k.Wait();
      if late {
        return Answer(false), false;
      }
      e := WaitForProcessGroupExit(k, patience);
      return;
    }
    var expired := k.Wait();
    if expired {
      reply := k.Send(Kill);
      if reply == Forbidden {
        return Raised, false;
      }
      expired := k.Wait();
      if expired {
        return Answer(false), true;
      }
    }
    e := WaitForProcessGroupExit(k, patience);
  }
}
