/** Folding a pixel-space mask video onto latent tokens, and rounding reference frame counts. */
module MaskFolding {
  import opened Sequences

  /** A frame at latent resolution: rows of values. A video: frames. */
  type Frame = seq<seq<real>>

  ghost predicate Shaped<T>(video: seq<seq<seq<T>>>, f: nat, h: nat, w: nat) {
    && |video| == f
    && (forall i :: 0 <= i < f ==> |video[i]| == h)
    && (forall i, j :: 0 <= i < f && 0 <= j < h ==> |video[i][j]| == w)
  }

  // ----- row-major flattening -----

  function FlatFrames<T>(video: seq<seq<seq<T>>>): seq<seq<T>> {
    seq(|video|, i requires 0 <= i < |video| => Flatten(video[i]))
  }

  /** `reshape` of a (frames, height, width) block to one axis. */
  function Tokens<T>(video: seq<seq<seq<T>>>): seq<T> {
    Flatten(FlatFrames(video))
  }

  function TokenIndex(f: nat, y: nat, x: nat, h: nat, w: nat): nat {
    (f * h + y) * w + x
  }

  lemma IndexBelow(i: nat, x: nat, n: nat, w: nat)
    requires i < n && x < w
    ensures i * w + x < n * w
  {
    assert (i + 1) * w <= n * w;
    assert (i + 1) * w == i * w + w;
  }

  lemma OneMore(n: nat, w: nat)
    ensures (n + 1) * w == n * w + w
  {
  }

  lemma {:induction false} FlatLength<T>(rows: seq<seq<T>>, w: nat)
    requires forall i :: 0 <= i < |rows| ==> |rows[i]| == w
    ensures |Flatten(rows)| == |rows| * w
  {
    if rows != [] {
      FlatLength(rows[..|rows| - 1], w);
      OneMore(|rows| - 1, w);
    }
  }

  lemma {:induction false} FlatAt<T>(rows: seq<seq<T>>, w: nat, i: nat, x: nat)
    requires forall i :: 0 <= i < |rows| ==> |rows[i]| == w
    requires i < |rows| && x < w
    ensures i * w + x < |Flatten(rows)| && Flatten(rows)[i * w + x] == rows[i][x]
  {
    var init, last := rows[..|rows| - 1], rows[|rows| - 1];
    FlatLength(init, w);
    if i < |init| {
      FlatAt(init, w, i, x);
    } else {
      assert Flatten(rows)[|Flatten(init)| + x] == last[x];
    }
  }

  /** Token (f * h + y) * w + x holds the value of frame f, row y, column x, whatever the values
      are: mask tokens and reference tokens of the same shape denote the same positions. */
  lemma TokenAt<T>(video: seq<seq<seq<T>>>, f: nat, h: nat, w: nat, i: nat, y: nat, x: nat)
    requires Shaped(video, f, h, w) && i < f && y < h && x < w
    ensures |Tokens(video)| == f * (h * w)
    ensures TokenIndex(i, y, x, h, w) < |Tokens(video)| && Tokens(video)[TokenIndex(i, y, x, h, w)] == video[i][y][x]
  {
    hide Flatten, TokenIndex;
    forall j | 0 <= j < f
      ensures |Flatten(video[j])| == h * w
    {
      FlatLength(video[j], w);
    }
    FlatLength(FlatFrames(video), h * w);
    FlatAt(video[i], w, y, x);
    Nest(i, y, x, h, w);
    FlatAt(FlatFrames(video), h * w, i, y * w + x);
  }

  lemma Nest(i: nat, y: nat, x: nat, h: nat, w: nat)
    ensures TokenIndex(i, y, x, h, w) == i * (h * w) + (y * w + x)
  {
    assert (i * h + y) * w == i * h * w + y * w;
    assert i * h * w == i * (h * w);
  }

  /** Tokens run along the row, then to the next row, then to the next frame. */
  lemma RowMajor(i: nat, y: nat, x: nat, h: nat, w: nat)
    requires y < h && x < w
    ensures TokenIndex(0, 0, 0, h, w) == 0
    ensures x + 1 < w ==> TokenIndex(i, y, x + 1, h, w) == TokenIndex(i, y, x, h, w) + 1
    ensures x + 1 == w && y + 1 < h ==> TokenIndex(i, y + 1, 0, h, w) == TokenIndex(i, y, x, h, w) + 1
    ensures x + 1 == w && y + 1 == h ==> TokenIndex(i + 1, 0, 0, h, w) == TokenIndex(i, y, x, h, w) + 1
  {
    OneMore(i * h + y, w);
    OneMore(i, h);
  }

  /** Different positions have different tokens. */
  lemma TokenIndexInjective(h: nat, w: nat, i: nat, y: nat, x: nat, i': nat, y': nat, x': nat)
    requires y < h && x < w && y' < h && x' < w
    requires TokenIndex(i, y, x, h, w) == TokenIndex(i', y', x', h, w)
    ensures i == i' && y == y' && x == x'
  {
    DigitsUnique(i * h + y, x, i' * h + y', x', w);
    DigitsUnique(i, y, i', y', h);
  }

  lemma DigitsUnique(a: nat, x: nat, b: nat, y: nat, w: nat)
    requires x < w && y < w && a * w + x == b * w + y
    ensures a == b && x == y
  {
    if a < b {
      IndexBelow(a, x, b, w);
      assert false;
    } else if b < a {
      IndexBelow(b, y, a, w);
      assert false;
    }
  }

  // ----- temporal averaging -----

  /** The sum of one position over frames from..to-1. */
  function SumAt(video: seq<Frame>, y: nat, x: nat, from: nat, to: nat): real
    requires from <= to <= |video|
    requires forall i :: 0 <= i < |video| ==> y < |video[i]| && x < |video[i][y]|
  {
    if from == to then 0.0 else SumAt(video, y, x, from, to - 1) + video[to - 1][y][x]
  }

  /** The latent frames, and the same values as one row of token weights. */
  datatype Result = Folded(latent: seq<Frame>, weights: seq<real>) | Incompatible

  /** What folding does: the first frame alone, then the mean of each run of t frames. */
  ghost predicate IsFold(video: seq<Frame>, latent: seq<Frame>, targetF: nat, t: nat, h: nat, w: nat)
    requires targetF > 0 && |video| == 1 + t * (targetF - 1) && Shaped(video, |video|, h, w)
  {
    && Shaped(latent, targetF, h, w)
    && latent[0] == video[0]
    && forall j, y, x :: 1 <= j < targetF && 0 <= y < h && 0 <= x < w ==> MeanAt(video, latent, t, j, y, x, h, w)
  }

  ghost predicate MeanAt(video: seq<Frame>, latent: seq<Frame>, t: nat, j: nat, y: nat, x: nat, h: nat, w: nat)
    requires Shaped(video, |video|, h, w) && Shaped(latent, |latent|, h, w)
    requires 1 <= j < |latent| && y < h && x < w
  {
    RunFits(video, t, j) && t as real * latent[j][y][x] == SumAt(video, y, x, 1 + (j - 1) * t, 1 + j * t)
  }

  predicate RunFits(video: seq<Frame>, t: nat, j: nat) {
    j >= 1 && 0 <= (j - 1) * t && 1 + (j - 1) * t <= 1 + j * t <= |video|
  }

  lemma RunWithin(n: nat, t: nat, j: nat, targetF: nat)
    requires 1 <= j < targetF && n == 1 + t * (targetF - 1)
    ensures 0 <= (j - 1) * t && (j - 1) * t + t == j * t && 1 + j * t <= n
  {
    assert j * t <= (targetF - 1) * t;
  }

  /** The mean of frames from..from+t-1, position by position. */
  method MeanFrame(video: seq<Frame>, from: nat, t: nat, h: nat, w: nat) returns (mean: Frame)
    requires t > 0 && from + t <= |video| && Shaped(video, |video|, h, w)
    ensures |mean| == h && forall y :: 0 <= y < h ==> |mean[y]| == w
    ensures forall y, x :: 0 <= y < h && 0 <= x < w ==> t as real * mean[y][x] == SumAt(video, y, x, from, from + t)
  {
    mean := [];
    for y := 0 to h
      invariant |mean| == y && forall y' :: 0 <= y' < y ==> |mean[y']| == w
      invariant forall y', x :: 0 <= y' < y && 0 <= x < w ==>
        t as real * mean[y'][x] == SumAt(video, y', x, from, from + t)
    {
      var row: seq<real> := [];
      for x := 0 to w
        invariant |row| == x
        invariant forall x' :: 0 <= x' < x ==> t as real * row[x'] == SumAt(video, y, x', from, from + t)
      {
        var sum := 0.0;
        for i := from to from + t
          invariant sum == SumAt(video, y, x, from, i)
        {
          sum := sum + video[i][y][x];
        }
        Divided(sum, t as real);
        row := row + [sum / t as real];
      }
      mean := mean + [row];
    }
  }

  lemma Divided(sum: real, t: real)
    requires t > 0.0
    ensures t * (sum / t) == sum
  {
  }

  /** The temporal half of the downsampling, and the reshape that follows it. More than one
      latent frame needs more than one pixel frame and a pixel count of one more than a multiple
      of the latent count less one; one latent frame is the first pixel frame. */
  method Downsample(video: seq<Frame>, targetF: nat, h: nat, w: nat) returns (r: Result)
    requires Shaped(video, |video|, h, w) && |video| > 0 && targetF > 0
    ensures r.Folded? <==> targetF == 1 || (|video| > 1 && (|video| - 1) % (targetF - 1) == 0)
    ensures r.Folded? ==> r.weights == Tokens(r.latent)
    ensures r.Folded? && targetF == 1 ==> r.latent == [video[0]]
    ensures r.Folded? && targetF > 1 ==>
      var t := (|video| - 1) / (targetF - 1);
      t > 0 && |video| == 1 + t * (targetF - 1) && IsFold(video, r.latent, targetF, t, h, w)
  {
    if |video| > 1 && targetF > 1 {
      var t := (|video| - 1) / (targetF - 1);
      if (|video| - 1) % (targetF - 1) != 0 {
        return Incompatible;
      }
      Exact(|video| - 1, targetF - 1);
      var latent := [video[0]];
      for j := 1 to targetF
        invariant Shaped(latent, j, h, w) && latent[0] == video[0]
        invariant forall j', y, x :: 1 <= j' < j && 0 <= y < h && 0 <= x < w ==>
          MeanAt(video, latent, t, j', y, x, h, w)
      {
        RunWithin(|video|, t, j, targetF);
        var mean := MeanFrame(video, 1 + (j - 1) * t, t, h, w);
        FoldGrows(video, latent, mean, t, j, h, w);
        latent := latent + [mean];
      }
      return Folded(latent, Tokens(latent));
    }
    if targetF != 1 {
      return Incompatible;
    }
    r := Folded([video[0]], Tokens([video[0]]));
  }

  lemma Exact(n: nat, d: nat)
    requires n > 0 && d > 0 && n % d == 0
    ensures n == n / d * d && n / d > 0
  {
  }

  lemma FoldGrows(video: seq<Frame>, latent: seq<Frame>, mean: Frame, t: nat, j: nat, h: nat, w: nat)
    requires Shaped(video, |video|, h, w) && Shaped(latent, j, h, w) && j >= 1
    requires |mean| == h && forall y :: 0 <= y < h ==> |mean[y]| == w
    requires RunFits(video, t, j) && (j - 1) * t + t == j * t
    requires forall y, x :: 0 <= y < h && 0 <= x < w ==>
      t as real * mean[y][x] == SumAt(video, y, x, 1 + (j - 1) * t, 1 + (j - 1) * t + t)
    requires forall j', y, x :: 1 <= j' < j && 0 <= y < h && 0 <= x < w ==> MeanAt(video, latent, t, j', y, x, h, w)
    ensures Shaped(latent + [mean], j + 1, h, w)
    ensures forall j', y, x :: 1 <= j' < j + 1 && 0 <= y < h && 0 <= x < w ==>
      MeanAt(video, latent + [mean], t, j', y, x, h, w)
  {
    var more := latent + [mean];
    forall j', y, x | 1 <= j' < j + 1 && 0 <= y < h && 0 <= x < w
      ensures MeanAt(video, more, t, j', y, x, h, w)
    {
      if j' < j {
        assert MeanAt(video, latent, t, j', y, x, h, w);
        assert more[j'] == latent[j'];
      } else {
        assert more[j'] == mean;
      }
    }
  }

  // ----- what folding keeps -----

  lemma {:induction false} SumAtSplit(video: seq<Frame>, y: nat, x: nat, a: nat, b: nat, c: nat)
    requires a <= b <= c <= |video|
    requires forall i :: 0 <= i < |video| ==> y < |video[i]| && x < |video[i][y]|
    ensures SumAt(video, y, x, a, c) == SumAt(video, y, x, a, b) + SumAt(video, y, x, b, c)
  {
    if b < c {
      SumAtSplit(video, y, x, a, b, c - 1);
    }
  }

  /** Mass is conserved at every position: t times the sum of the averaged latent frames is the
      sum of all pixel frames but the first. */
  lemma {:induction false} MassConserved(video: seq<Frame>, latent: seq<Frame>, targetF: nat, t: nat, h: nat, w: nat,
      y: nat, x: nat, j: nat)
    requires targetF > 0 && |video| == 1 + t * (targetF - 1)
    requires Shaped(video, |video|, h, w) && IsFold(video, latent, targetF, t, h, w)
    requires y < h && x < w && 1 <= j <= targetF
    ensures 0 <= (j - 1) * t && 1 + (j - 1) * t <= |video|
    ensures t as real * SumAt(latent, y, x, 1, j) == SumAt(video, y, x, 1, 1 + (j - 1) * t)
  {
    if j > 1 {
      MassConserved(video, latent, targetF, t, h, w, y, x, j - 1);
      hide IsFold;
      RunWithin(|video|, t, j - 1, targetF);
      FoldMean(video, latent, targetF, t, h, w, j - 1, y, x);
      SumAtSplit(video, y, x, 1, 1 + (j - 2) * t, 1 + (j - 1) * t);
      Spread(t as real, SumAt(latent, y, x, 1, j), SumAt(latent, y, x, 1, j - 1), latent[j - 1][y][x]);
    }
  }

  lemma FoldMean(video: seq<Frame>, latent: seq<Frame>, targetF: nat, t: nat, h: nat, w: nat, j: nat, y: nat, x: nat)
    requires targetF > 0 && |video| == 1 + t * (targetF - 1) && Shaped(video, |video|, h, w)
    requires IsFold(video, latent, targetF, t, h, w) && 1 <= j < targetF && y < h && x < w
    ensures MeanAt(video, latent, t, j, y, x, h, w)
  {
  }

  lemma Spread(t: real, c: real, a: real, b: real)
    requires c == a + b
    ensures t * c == t * a + t * b
  {
  }

  ghost predicate Bounded(video: seq<Frame>, lo: real, hi: real) {
    forall i, y, x :: 0 <= i < |video| && 0 <= y < |video[i]| && 0 <= x < |video[i][y]| ==> lo <= video[i][y][x] <= hi
  }

  lemma {:induction false} SumAtBounded(video: seq<Frame>, y: nat, x: nat, from: nat, n: nat, lo: real, hi: real)
    requires from + n <= |video| && Bounded(video, lo, hi)
    requires forall i :: 0 <= i < |video| ==> y < |video[i]| && x < |video[i][y]|
    ensures n as real * lo <= SumAt(video, y, x, from, from + n) <= n as real * hi
  {
    if n > 0 {
      SumAtBounded(video, y, x, from, n - 1, lo, hi);
      assert lo <= video[from + n - 1][y][x] <= hi;
      assert n as real * lo == (n - 1) as real * lo + lo && n as real * hi == (n - 1) as real * hi + hi;
    }
  }

  /** Averaging stays within the bounds of the pixel values, so a mask in [0, 1] folds to one. */
  lemma FoldBounded(video: seq<Frame>, latent: seq<Frame>, targetF: nat, t: nat, h: nat, w: nat, lo: real, hi: real)
    requires targetF > 0 && t > 0 && |video| == 1 + t * (targetF - 1) && Shaped(video, |video|, h, w)
    requires IsFold(video, latent, targetF, t, h, w) && Bounded(video, lo, hi)
    ensures Bounded(latent, lo, hi)
  {
    forall j, y, x | 0 <= j < |latent| && 0 <= y < |latent[j]| && 0 <= x < |latent[j][y]|
      ensures lo <= latent[j][y][x] <= hi
    {
      if j > 0 {
        MeanBounded(video, latent, t, j, y, x, h, w, lo, hi);
      } else {
        assert latent[0] == video[0];
      }
    }
  }

  lemma MeanBounded(video: seq<Frame>, latent: seq<Frame>, t: nat, j: nat, y: nat, x: nat, h: nat, w: nat,
      lo: real, hi: real)
    requires t > 0 && Shaped(video, |video|, h, w) && Shaped(latent, |latent|, h, w)
    requires 1 <= j < |latent| && y < h && x < w && MeanAt(video, latent, t, j, y, x, h, w) && Bounded(video, lo, hi)
    ensures lo <= latent[j][y][x] <= hi
  {
    hide Bounded, SumAt;
    assert 1 + (j - 1) * t + t == 1 + j * t;
    SumAtBounded(video, y, x, 1 + (j - 1) * t, t, lo, hi);
    CancelFactor(t as real, latent[j][y][x], SumAt(video, y, x, 1 + (j - 1) * t, 1 + j * t), lo, hi);
  }

  lemma MulLess(t: real, a: real, b: real)
    requires t > 0.0 && a < b
    ensures t * a < t * b
  {
  }

  lemma CancelFactor(t: real, v: real, p: real, lo: real, hi: real)
    requires t > 0.0 && t * v == p && t * lo <= p <= t * hi
    ensures lo <= v <= hi
  {
    if v < lo {
      MulLess(t, v, lo);
    }
    if v > hi {
      MulLess(t, hi, v);
    }
  }

  // ----- frame counts -----

  /** The number of reference frames loaded: one more than a multiple of eight, and at least nine. */
  function VaeFrames(numFrames: int, available: int): int {
    var maxFrames := if available < numFrames then available else numFrames;
    var k := if (maxFrames - 1) / 8 > 1 then (maxFrames - 1) / 8 else 1;
    1 + k * 8
  }

  /** The count is the largest of its form within what the caller and the source allow, exactly
      when both allow nine frames; below that it asks for more frames than there are. */
  lemma VaeFramesFit(numFrames: int, available: int)
    ensures VaeFrames(numFrames, available) % 8 == 1
    ensures VaeFrames(numFrames, available) <= numFrames && VaeFrames(numFrames, available) <= available
       <==> numFrames >= 9 && available >= 9
    ensures numFrames >= 9 && available >= 9 ==>
      VaeFrames(numFrames, available) + 8 > numFrames || VaeFrames(numFrames, available) + 8 > available
  {
  }
}
