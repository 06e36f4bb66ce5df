/** The progress-bar proxy that turns iteration boundaries into step events. */
module MeasuredBar {

  datatype BarEvent = StepStart(stage: int, step: nat, total: int) | StageEnd(stage: int, step: nat, total: int)

  datatype Next<T> = Item(value: T) | Exhausted

  /** The events of steps from+1 .. to. */
  function Steps(stage: int, total: int, from: nat, to: nat): seq<BarEvent>
    requires from <= to
  {
    if from == to then [] else Steps(stage, total, from, to - 1) + [StepStart(stage, to, total)]
  }

  /** One event for every step, in order. */
  lemma {:induction false} StepsAre(stage: int, total: int, from: nat, to: nat, i: nat)
    requires from <= to && i < to - from
    ensures |Steps(stage, total, from, to)| == to - from
    ensures Steps(stage, total, from, to)[i] == StepStart(stage, from + 1 + i, total)
  {
    if i < to - from - 1 {
      StepsAre(stage, total, from, to - 1, i);
    } else if from < to - 1 {
      StepsAre(stage, total, from, to - 1, 0);
    }
  }

  class Bar<T> {
    const items: seq<T>
    const stage: int
    const total: int
    var step: nat
    var emitted: seq<BarEvent>

    /** Every item taken from the wrapped bar is one step. */
    predicate Valid()
      reads this
    {
      step <= |items|
    }

    constructor (items: seq<T>, stage: int, total: int)
      ensures this.items == items && this.stage == stage && this.total == total
      ensures Valid() && step == 0 && emitted == []
    {
      this.items, this.stage, this.total := items, stage, total;
      step, emitted := 0, [];
    }

    method Advance() returns (r: Next<T>)
      requires Valid()
      modifies this
      ensures Valid()
      ensures old(step) < |items| ==>
        r == Item(items[old(step)]) && step == old(step) + 1
        && emitted == old(emitted) + [StepStart(stage, step, total)]
      ensures old(step) == |items| ==>
        r == Exhausted && step == old(step)
        && emitted == old(emitted) + if step > 0 then [StageEnd(stage, step, total)] else []
    {
      if step == |items| {
        if step > 0 {
          emitted := emitted + [StageEnd(stage, step, total)];
        }
        return Exhausted;
      }
      r := Item(items[step]);
      step := step + 1;
      emitted := emitted + [StepStart(stage, step, total)];
    }

    /** A for-loop over the bar whose body leaves the loop at its `limit`-th item, if it gets
        that far. Each item is one step event, in order; a stage end follows exactly when the
        loop ran out of items and the bar has delivered at least one. */
    method ForLoop(limit: nat) returns (seen: seq<T>)
      requires Valid() && limit > 0
      modifies this
      ensures Valid() && old(step) <= step && seen == items[old(step)..step]
      ensures step == if old(step) + limit <= |items| then old(step) + limit else |items|
      ensures emitted == old(emitted) + Steps(stage, total, old(step), step)
        + if old(step) + limit > |items| && step > 0 then [StageEnd(stage, step, total)] else []
    {
      seen := [];
      while true
        invariant Valid() && old(step) <= step && seen == items[old(step)..step]
        invariant |seen| < limit
        invariant emitted == old(emitted) + Steps(stage, total, old(step), step)
        decreases |items| - step
      {
        var r := Advance();
        match r {
          case Exhausted =>
            return;
          case Item(x) =>
            seen := seen + [x];
            if |seen| == limit {
              return;
            }
        }
      }
    }
  }
}
