/** Collecting paired benchmark runs, and the gate that must not hide missing ones. */
module LandingGate {
  import opened Wrappers

  datatype RunResult = RunResult(runIdx: nat, promptIdx: nat, tokenHash: string)

  datatype Condition = Baseline | Mtp

  /** What generating gives for a condition, run and prompt: a token hash, or an exception. */
  type Outcomes = (Condition, nat, nat) -> Option<string>

  type Cell = (nat, nat)

  function CellOf(r: RunResult): Cell {
    (r.runIdx, r.promptIdx)
  }

  // ----- collecting -----

  /** Which cells a condition's collected results cover, and with what hashes. */
  ghost predicate Collected(rs: seq<RunResult>, c: Condition, outcomes: Outcomes, done: set<Cell>) {
    && (forall i :: 0 <= i < |rs| ==>
          CellOf(rs[i]) in done && outcomes(c, rs[i].runIdx, rs[i].promptIdx) == Some(rs[i].tokenHash))
    && (forall x :: x in done && outcomes(c, x.0, x.1).Some? ==> exists i :: 0 <= i < |rs| && CellOf(rs[i]) == x)
    && (forall i, j :: 0 <= i < j < |rs| ==> CellOf(rs[i]) != CellOf(rs[j]))
  }

  function Grid(runs: nat, prompts: nat): set<Cell> {
    set r: nat, p: nat | r < runs && p < prompts :: (r, p)
  }

  /** The nested loops of the benchmark; a generation that raises is skipped. */
  method CollectResults(runs: nat, prompts: nat, mtpOnly: bool, outcomes: Outcomes)
    returns (none: seq<RunResult>, mtp: seq<RunResult>)
    ensures if mtpOnly then none == [] else Collected(none, Baseline, outcomes, Grid(runs, prompts))
    ensures Collected(mtp, Mtp, outcomes, Grid(runs, prompts))
  {
    none, mtp := [], [];
    ghost var done: set<Cell> := {};
    for r := 0 to runs
      invariant forall x: Cell :: x in done <==> x.0 < r && x.1 < prompts
      invariant if mtpOnly then none == [] else Collected(none, Baseline, outcomes, done)
      invariant Collected(mtp, Mtp, outcomes, done)
    {
      for p := 0 to prompts
        invariant forall x: Cell :: x in done <==> (x.0 < r && x.1 < prompts) || (x.0 == r && x.1 < p)
        invariant if mtpOnly then none == [] else Collected(none, Baseline, outcomes, done)
        invariant Collected(mtp, Mtp, outcomes, done)
      {
        if !mtpOnly {
          none := Attempt(none, Baseline, r, p, outcomes, done);
        }
        mtp := Attempt(mtp, Mtp, r, p, outcomes, done);
        done := done + {(r, p)};
      }
    }
    assert done == Grid(runs, prompts);
  }

  method Attempt(rs: seq<RunResult>, c: Condition, r: nat, p: nat, outcomes: Outcomes, ghost done: set<Cell>)
    returns (after: seq<RunResult>)
    requires Collected(rs, c, outcomes, done) && (r, p) !in done
    ensures Collected(after, c, outcomes, done + {(r, p)})
  {
    match outcomes(c, r, p) {
      case None =>
        after := rs;
      case Some(hash) =>
        after := rs + [RunResult(r, p, hash)];
        assert CellOf(after[|rs|]) == (r, p);
        assert forall i :: 0 <= i < |rs| ==> after[i] == rs[i];
    }
  }

  // ----- the gate -----

  /** Results keyed by cell; a later result for the same cell wins. */
  function ByCell(rs: seq<RunResult>): map<Cell, string> {
    if rs == [] then map[]
    else ByCell(rs[..|rs| - 1])[CellOf(rs[|rs| - 1]) := rs[|rs| - 1].tokenHash]
  }

  datatype Gates = Gates(
    passed: bool, completePairs: nat, losslessPassed: bool, mismatches: set<Cell>, speedupPassed: bool)

  /** `minSpeedup` of None or zero asks for nothing. */
  function EvaluateLandingGates(none: seq<RunResult>, mtp: seq<RunResult>, expectedPairs: nat,
      requireLossless: bool, minSpeedup: Option<real>, speedup: Option<real>): Gates
  {
    var b, m := ByCell(none), ByCell(mtp);
    var paired := b.Keys * m.Keys;
    var mismatches := set x | x in paired && b[x] != m[x];
    var complete := |b| == expectedPairs && |m| == expectedPairs && |paired| == expectedPairs;
    var lossless := !requireLossless || (complete && mismatches == {});
    var fast := minSpeedup.None? || minSpeedup.value == 0.0
      || (complete && speedup.Some? && speedup.value >= minSpeedup.value);
    Gates(lossless && fast, |paired|, lossless, mismatches, fast)
  }

  // ----- what passing means -----

  lemma {:induction false} ByCellOf(rs: seq<RunResult>, c: Condition, outcomes: Outcomes, done: set<Cell>)
    requires Collected(rs, c, outcomes, done)
    ensures forall x :: x in ByCell(rs) <==> x in done && outcomes(c, x.0, x.1).Some?
    ensures forall x :: x in ByCell(rs) ==> outcomes(c, x.0, x.1) == Some(ByCell(rs)[x])
  {
    Keyed(rs);
    forall x
      ensures x in ByCell(rs) <==> x in done && outcomes(c, x.0, x.1).Some?
      ensures x in ByCell(rs) ==> outcomes(c, x.0, x.1) == Some(ByCell(rs)[x])
    {
      if x in ByCell(rs) {
        var i :| 0 <= i < |rs| && CellOf(rs[i]) == x && ByCell(rs)[x] == rs[i].tokenHash;
      }
      if x in done && outcomes(c, x.0, x.1).Some? {
        var i :| 0 <= i < |rs| && CellOf(rs[i]) == x;
        assert CellOf(rs[i]) in ByCell(rs);
      }
    }
  }

  lemma {:induction false} Keyed(rs: seq<RunResult>)
    ensures forall x :: x in ByCell(rs) ==>
      exists i :: 0 <= i < |rs| && CellOf(rs[i]) == x && ByCell(rs)[x] == rs[i].tokenHash
    ensures forall i :: 0 <= i < |rs| ==> CellOf(rs[i]) in ByCell(rs)
  {
    if rs != [] {
      var n := |rs| - 1;
      Keyed(rs[..n]);
      forall x | x in ByCell(rs)
        ensures exists i :: 0 <= i < |rs| && CellOf(rs[i]) == x && ByCell(rs)[x] == rs[i].tokenHash
      {
        if x == CellOf(rs[n]) {
          assert ByCell(rs)[x] == rs[n].tokenHash;
        } else {
          var i :| 0 <= i < n && CellOf(rs[..n][i]) == x && ByCell(rs[..n])[x] == rs[..n][i].tokenHash;
          assert rs[..n][i] == rs[i];
        }
      }
    }
  }

  lemma {:induction false} GridSize(runs: nat, prompts: nat)
    ensures |Grid(runs, prompts)| == runs * prompts
  {
    if runs == 0 {
      assert Grid(runs, prompts) == {};
    } else {
      GridSize(runs - 1, prompts);
      RowSize(runs - 1, prompts);
      GridGrows(runs - 1, prompts);
      hide Grid, GridRow;
      assert runs * prompts == (runs - 1) * prompts + prompts;
    }
  }

  lemma GridGrows(r: nat, prompts: nat)
    ensures |Grid(r + 1, prompts)| == |Grid(r, prompts)| + |GridRow(r, prompts)|
  {
    assert Grid(r, prompts) !! GridRow(r, prompts);
    assert Grid(r + 1, prompts) == Grid(r, prompts) + GridRow(r, prompts);
  }

  function GridRow(r: nat, prompts: nat): set<Cell> {
    set p: nat | p < prompts :: (r, p)
  }

  lemma {:induction false} RowSize(r: nat, prompts: nat)
    ensures |GridRow(r, prompts)| == prompts
  {
    if prompts > 0 {
      RowSize(r, prompts - 1);
      assert GridRow(r, prompts) == GridRow(r, prompts - 1) + {(r, prompts - 1)};
      assert (r, prompts - 1) !in GridRow(r, prompts - 1);
    } else {
      assert GridRow(r, prompts) == {};
    }
  }

  lemma {:induction false} SubsetOfSameSize<T>(a: set<T>, b: set<T>)
    requires a <= b && |a| == |b|
    ensures a == b
  {
    assert b == a + (b - a);
    assert |b| == |a| + |b - a|;
  }

  /** Both conditions generated this cell, with the same tokens. */
  ghost predicate Lossless(outcomes: Outcomes, x: Cell) {
    outcomes(Baseline, x.0, x.1).Some? && outcomes(Baseline, x.0, x.1) == outcomes(Mtp, x.0, x.1)
  }

  /** The count test and the mismatch test, on any two keyed results within the grid. */
  lemma CountsDecide(b: map<Cell, string>, m: map<Cell, string>, grid: set<Cell>)
    requires b.Keys <= grid && m.Keys <= grid
    ensures (|b| == |grid| && |m| == |grid| && |b.Keys * m.Keys| == |grid|
             && (set x | x in b.Keys * m.Keys && b[x] != m[x]) == {})
       <==> forall x :: x in grid ==> x in b && x in m && b[x] == m[x]
  {
    var paired := b.Keys * m.Keys;
    var mismatches := set x | x in paired && b[x] != m[x];
    assert |b| == |b.Keys| && |m| == |m.Keys|;
    if |paired| == |grid| && mismatches == {} {
      SubsetOfSameSize(paired, grid);
      forall x | x in grid
        ensures x in b && x in m && b[x] == m[x]
      {
        assert x in paired && x !in mismatches;
      }
    }
    if forall x :: x in grid ==> x in b && x in m && b[x] == m[x] {
      assert b.Keys == grid && m.Keys == grid && paired == grid;
      assert mismatches == {};
    }
  }

  /** With losslessness required, the gate's correctness half passes exactly when every cell of
      the grid was generated under both conditions with equal hashes; so any generation that
      raised and was skipped makes it fail. */
  lemma LosslessGateExact(runs: nat, prompts: nat, outcomes: Outcomes, none: seq<RunResult>, mtp: seq<RunResult>,
      minSpeedup: Option<real>, speedup: Option<real>)
    requires Collected(none, Baseline, outcomes, Grid(runs, prompts))
    requires Collected(mtp, Mtp, outcomes, Grid(runs, prompts))
    ensures var g := EvaluateLandingGates(none, mtp, runs * prompts, true, minSpeedup, speedup);
      (g.losslessPassed <==> forall x :: x in Grid(runs, prompts) ==> Lossless(outcomes, x))
      && (g.passed ==> g.losslessPassed)
  {
    hide Collected, ByCell, Grid;
    var b, m, grid := ByCell(none), ByCell(mtp), Grid(runs, prompts);
    ByCellOf(none, Baseline, outcomes, grid);
    ByCellOf(mtp, Mtp, outcomes, grid);
    GridSize(runs, prompts);
    CountsDecide(b, m, grid);
    forall x | x in grid
      ensures Lossless(outcomes, x) <==> x in b && x in m && b[x] == m[x]
    {
    }
  }

  /** A speed requirement is met only by a complete grid: both conditions generated every cell. */
  lemma SpeedGateComplete(runs: nat, prompts: nat, outcomes: Outcomes, none: seq<RunResult>, mtp: seq<RunResult>,
      requireLossless: bool, minSpeedup: real, speedup: Option<real>)
    requires Collected(none, Baseline, outcomes, Grid(runs, prompts))
    requires Collected(mtp, Mtp, outcomes, Grid(runs, prompts))
    requires minSpeedup != 0.0
    requires EvaluateLandingGates(none, mtp, runs * prompts, requireLossless, Some(minSpeedup), speedup).passed
    ensures speedup.Some? && speedup.value >= minSpeedup
    ensures forall x: Cell :: x in Grid(runs, prompts) ==>
      outcomes(Baseline, x.0, x.1).Some? && outcomes(Mtp, x.0, x.1).Some?
  {
    hide Collected, ByCell, Grid;
    var b, m, grid := ByCell(none), ByCell(mtp), Grid(runs, prompts);
    ByCellOf(none, Baseline, outcomes, grid);
    ByCellOf(mtp, Mtp, outcomes, grid);
    GridSize(runs, prompts);
    SubsetOfSameSize(b.Keys * m.Keys, grid);
  }

  /** Both conditions generated this cell. */
  ghost predicate Paired(outcomes: Outcomes, x: Cell) {
    outcomes(Baseline, x.0, x.1).Some? && outcomes(Mtp, x.0, x.1).Some?
  }

  /** The counts compare two keyed results with the grid. */
  lemma CountsComplete(b: map<Cell, string>, m: map<Cell, string>, grid: set<Cell>)
    requires b.Keys <= grid && m.Keys <= grid
    ensures |b| == |grid| && |m| == |grid| && |b.Keys * m.Keys| == |grid|
       <==> forall x :: x in grid ==> x in b && x in m
  {
    assert |b| == |b.Keys| && |m| == |m.Keys|;
    if |b.Keys * m.Keys| == |grid| {
      SubsetOfSameSize(b.Keys * m.Keys, grid);
    }
    if forall x :: x in grid ==> x in b && x in m {
      assert b.Keys == grid && m.Keys == grid && b.Keys * m.Keys == grid;
    }
  }

  /** Everything the gate reports, over every grid and every way its generations may end: the
      pairs are the cells generated under both conditions and the mismatches those of them with
      different tokens; the lossless half passes if it is not required, and otherwise exactly on
      a grid without a missing or differing cell; the speed half passes if nothing is asked, and
      otherwise exactly on a complete grid with an observed speedup of at least the minimum; and
      the gate passes exactly if both halves do. */
  lemma GateExact(runs: nat, prompts: nat, outcomes: Outcomes, none: seq<RunResult>, mtp: seq<RunResult>,
      requireLossless: bool, minSpeedup: Option<real>, speedup: Option<real>)
    requires Collected(none, Baseline, outcomes, Grid(runs, prompts))
    requires Collected(mtp, Mtp, outcomes, Grid(runs, prompts))
    ensures var g := EvaluateLandingGates(none, mtp, runs * prompts, requireLossless, minSpeedup, speedup);
      var grid := Grid(runs, prompts);
      && g.completePairs == |set x | x in grid && Paired(outcomes, x)|
      && g.mismatches == (set x | x in grid && Paired(outcomes, x) && !Lossless(outcomes, x))
      && (g.losslessPassed <==> (requireLossless ==> forall x :: x in grid ==> Lossless(outcomes, x)))
      && (g.speedupPassed <==>
            (minSpeedup.Some? && minSpeedup.value != 0.0 ==>
              speedup.Some? && minSpeedup.value <= speedup.value && forall x :: x in grid ==> Paired(outcomes, x)))
      && (g.passed <==> g.losslessPassed && g.speedupPassed)
  {
    var b, m, grid := ByCell(none), ByCell(mtp), Grid(runs, prompts);
    LosslessGateExact(runs, prompts, outcomes, none, mtp, minSpeedup, speedup);
    KeyedCells(outcomes, none, mtp, grid);
    GridSize(runs, prompts);
    hide Collected, ByCell, Grid, Paired, Lossless;
    CountsComplete(b, m, grid);
    assert forall x :: x in grid ==> (Paired(outcomes, x) <==> x in b.Keys * m.Keys);
  }

  /** The keyed results, in terms of what generating gave. */
  lemma KeyedCells(outcomes: Outcomes, none: seq<RunResult>, mtp: seq<RunResult>, grid: set<Cell>)
    requires Collected(none, Baseline, outcomes, grid) && Collected(mtp, Mtp, outcomes, grid)
    ensures var b, m := ByCell(none), ByCell(mtp);
      && b.Keys <= grid && m.Keys <= grid
      && b.Keys * m.Keys == (set x | x in grid && Paired(outcomes, x))
      && (set x | x in b.Keys * m.Keys && b[x] != m[x])
           == (set x | x in grid && Paired(outcomes, x) && !Lossless(outcomes, x))
  {
    ByCellOf(none, Baseline, outcomes, grid);
    ByCellOf(mtp, Mtp, outcomes, grid);
    hide Collected, ByCell;
    var b, m := ByCell(none), ByCell(mtp);
    forall x | x in grid
      ensures Paired(outcomes, x) <==> x in b && x in m
      ensures x in b && x in m ==> (Lossless(outcomes, x) <==> b[x] == m[x])
    {
    }
    hide Paired, Lossless;
    forall x
      ensures x in b.Keys * m.Keys <==> x in grid && Paired(outcomes, x)
    {
    }
  }

  /** Without baseline runs the gate over a non-empty grid passes only if nothing is asked. */
  lemma MtpOnlyFailsLossless(runs: nat, prompts: nat, mtp: seq<RunResult>, requireLossless: bool,
      minSpeedup: Option<real>, speedup: Option<real>)
    requires runs > 0 && prompts > 0
    ensures var g := EvaluateLandingGates([], mtp, runs * prompts, requireLossless, minSpeedup, speedup);
      && (g.passed <==> !requireLossless && (minSpeedup.None? || minSpeedup.value == 0.0))
      && g.completePairs == 0 && g.mismatches == {}
  {
    assert runs * prompts > 0;
    assert ByCell([]).Keys * ByCell(mtp).Keys == {};
  }
}
