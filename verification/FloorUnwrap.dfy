/** Heights of the floor curve's points from their residuals (Vorbis I, section 7.2.4). */
module FloorUnwrap {
  import opened FloorLine
  import opened FloorSetup

  // ----- one point -----

  /** The height that a residual stands for, next to a predicted height. */
  function Unwrap(range: nat, pred: int, val: int): int
  {
    var highroom := range - pred;
    var lowroom := pred;
    var room := if highroom < lowroom then highroom * 2 else lowroom * 2;
    if val == 0 then pred
    else if val >= room then
      if highroom > lowroom then val - lowroom + pred else pred - val + highroom - 1
    else if val % 2 == 1 then pred - (val + 1) / 2
    else pred + val / 2
  }

  /** The residual for a height: alternating sides while both have room, then whichever side is left. */
  function Wrap(range: nat, pred: int, y: int): int
  {
    var near := if pred < range - pred then pred else range - pred;
    if pred <= y < pred + near then 2 * (y - pred)
    else if pred - near <= y < pred then 2 * (pred - y) - 1
    else if y >= pred then y
    else range - 1 - y
  }

  lemma UnwrapThenWrap(range: nat, pred: int, val: int)
    requires 0 <= pred < range && 0 <= val < range
    ensures 0 <= Unwrap(range, pred, val) < range && Wrap(range, pred, Unwrap(range, pred, val)) == val
  {}

  lemma WrapThenUnwrap(range: nat, pred: int, y: int)
    requires 0 <= pred < range && 0 <= y < range
    ensures 0 <= Wrap(range, pred, y) < range && Unwrap(range, pred, Wrap(range, pred, y)) == y
  {}

  /** Residuals stand for heights in the order of their distance from the prediction, the lower one first. */
  lemma UnwrapOrder(range: nat, pred: int, val: int, val': int)
    requires 0 <= pred < range && 0 <= val < val' < range
    ensures var y, y' := Unwrap(range, pred, val), Unwrap(range, pred, val');
      var d, d' := if y < pred then pred - y else y - pred, if y' < pred then pred - y' else y' - pred;
      d < d' || (d == d' && y < pred < y')
  {}

  // ----- all points -----

  ghost predicate Heights(ys: seq<int>, n: nat, range: nat)
  {
    n <= |ys| && forall j {:trigger ys[j]} :: 0 <= j < n ==> 0 <= ys[j] < range
  }

  function Predicted(f: Floor, j: nat, low: int, high: int): int
    requires j < |f.xs| && j < |f.neighbours| && f.neighbours[j].low < |f.xs| && f.neighbours[j].high < |f.xs|
    requires f.xs[f.neighbours[j].low] <= f.xs[j] && f.xs[f.neighbours[j].low] < f.xs[f.neighbours[j].high]
  {
    PredictPoint(f.xs[j], f.xs[f.neighbours[j].low], f.xs[f.neighbours[j].high], low, high)
  }

  lemma NeighbourFacts(f: Floor, j: nat)
    requires Valid(f) && 2 <= j < |f.xs|
    ensures f.neighbours[j].low < j && f.neighbours[j].high < j
    ensures f.xs[f.neighbours[j].low] < f.xs[j] < f.xs[f.neighbours[j].high]
  {
    assert Closest(f.xs, j, f.neighbours[j]);
  }

  /** The height that the neighbours of point `j` predict for it. */
  ghost function Prediction(f: Floor, ys: seq<int>, j: nat): int
    requires Valid(f) && 2 <= j < |f.xs| && j <= |ys|
  {
    NeighbourFacts(f, j);
    Predicted(f, j, ys[f.neighbours[j].low], ys[f.neighbours[j].high])
  }

  lemma PredictionInRange(f: Floor, ys: seq<int>, j: nat, range: nat)
    requires Valid(f) && 2 <= j < |f.xs| && Heights(ys, j, range)
    ensures 0 <= Prediction(f, ys, j) < range
  {
    NeighbourFacts(f, j);
    var b := f.neighbours[j];
    PredictBetween(f.xs[j], f.xs[b.low], f.xs[b.high], ys[b.low], ys[b.high]);
  }

  /** The residual at `j` of a curve through the heights `ys`; the first two points are stored as they are. */
  ghost function Residual(f: Floor, ys: seq<int>, j: nat, range: nat): int
    requires Valid(f) && j < |f.xs| && j < |ys|
  {
    if j < 2 then ys[j] else Wrap(range, Prediction(f, ys, j), ys[j])
  }

  /** The residuals `rs` of the first `n` points code the heights `ys`. */
  ghost predicate Codes(f: Floor, rs: seq<int>, ys: seq<int>, n: nat, range: nat)
    requires Valid(f) && n <= |f.xs| && n <= |ys| && n <= |rs|
  {
    forall j {:trigger Residual(f, ys, j, range)} :: 0 <= j < n ==> rs[j] == Residual(f, ys, j, range)
  }

  lemma PredictionDepends(f: Floor, ys: seq<int>, zs: seq<int>, j: nat)
    requires Valid(f) && 2 <= j < |f.xs| && j <= |ys| && j <= |zs| && ys[..j] == zs[..j]
    ensures Prediction(f, ys, j) == Prediction(f, zs, j)
  {
    NeighbourFacts(f, j);
    var b := f.neighbours[j];
    assert ys[..j][b.low] == zs[..j][b.low] && ys[..j][b.high] == zs[..j][b.high];
  }

  /** Residuals below the range determine the heights. */
  lemma {:induction false} HeightsUnique(f: Floor, rs: seq<int>, ys: seq<int>, zs: seq<int>, n: nat, range: nat)
    requires Valid(f) && n <= |f.xs| && n <= |rs|
    requires Heights(ys, n, range) && Heights(zs, n, range)
    requires Codes(f, rs, ys, n, range) && Codes(f, rs, zs, n, range)
    ensures ys[..n] == zs[..n]
  {
    hide Prediction, Wrap, Unwrap, Valid;
    if n > 0 {
      HeightsUnique(f, rs, ys, zs, n - 1, range);
      if n > 2 {
        PredictionDepends(f, ys, zs, n - 1);
        PredictionInRange(f, ys, n - 1, range);
        WrapThenUnwrap(range, Prediction(f, ys, n - 1), ys[n - 1]);
        WrapThenUnwrap(range, Prediction(f, ys, n - 1), zs[n - 1]);
      }
      assert Residual(f, ys, n - 1, range) == rs[n - 1] == Residual(f, zs, n - 1, range);
      assert ys[n - 1] == zs[n - 1];
      assert ys[..n] == ys[..n - 1] + [ys[n - 1]] && zs[..n] == zs[..n - 1] + [zs[n - 1]];
    }
  }

  /** Every list of heights in range has residuals in range. */
  lemma ResidualsInRange(f: Floor, ys: seq<int>, range: nat)
    requires Valid(f) && Heights(ys, |f.xs|, range)
    ensures forall j {:trigger Residual(f, ys, j, range)} :: 0 <= j < |f.xs| ==> 0 <= Residual(f, ys, j, range) < range
  {
    hide Valid;
    forall j {:trigger Residual(f, ys, j, range)} | 0 <= j < |f.xs|
      ensures 0 <= Residual(f, ys, j, range) < range
    {
      if j >= 2 {
        PredictionInRange(f, ys, j, range);
        WrapThenUnwrap(range, Prediction(f, ys, j), ys[j]);
      } else {
        assert 0 <= ys[j] < range;
      }
    }
  }

  /** Whether point `k` is a corner of the curve once the residuals before `n` are known: it has one, or bounds one that has. */
  ghost predicate Corner(f: Floor, rs: seq<int>, k: nat, n: nat)
    requires n <= |rs| && n <= |f.neighbours| && k < n
  {
    k < 2 || rs[k] != 0 || exists m {:trigger f.neighbours[m]} :: 2 <= m < n && rs[m] != 0 && (f.neighbours[m].low == k || f.neighbours[m].high == k)
  }

  ghost predicate Corners(f: Floor, rs: seq<int>, step2: seq<bool>, n: nat)
    requires n <= |rs| && n <= |f.neighbours| && n <= |step2|
  {
    forall k {:trigger step2[k]} :: 0 <= k < n ==> step2[k] == Corner(f, rs, k, n)
  }

  lemma CodesNext(f: Floor, rs: seq<int>, ys: seq<int>, n: nat, range: nat)
    requires Valid(f) && 2 <= n < |f.xs| && |f.xs| <= |rs| && |rs| == |ys|
    requires Heights(ys, n, range) && Codes(f, rs, ys, n, range) && ys[n] == rs[n] && 0 <= rs[n] < range
    ensures var zs := ys[n := Unwrap(range, Prediction(f, ys, n), rs[n])];
      Heights(zs, n + 1, range) && Codes(f, rs, zs, n + 1, range)
  {
    hide Prediction, Wrap, Unwrap, Valid;
    var zs := ys[n := Unwrap(range, Prediction(f, ys, n), rs[n])];
    PredictionInRange(f, ys, n, range);
    UnwrapThenWrap(range, Prediction(f, ys, n), rs[n]);
    forall j {:trigger zs[j]} {:trigger Residual(f, zs, j, range)} | 0 <= j <= n
      ensures 0 <= zs[j] < range && rs[j] == Residual(f, zs, j, range)
    {
      assert j < n ==> rs[j] == Residual(f, ys, j, range);
      assert j < n ==> zs[j] == ys[j];
      if j >= 2 {
        assert ys[..j] == zs[..j];
        PredictionDepends(f, ys, zs, j);
      }
    }
  }

  lemma CornersNext(f: Floor, rs: seq<int>, step2: seq<bool>, n: nat)
    requires Valid(f) && 2 <= n < |f.xs| && |f.xs| <= |rs| && n < |step2| && Corners(f, rs, step2, n)
    ensures rs[n] == 0 ==> Corners(f, rs, step2[n := false], n + 1)
    ensures f.neighbours[n].low < n && f.neighbours[n].high < n
    ensures rs[n] != 0 ==> Corners(f, rs, step2[f.neighbours[n].low := true][f.neighbours[n].high := true][n := true], n + 1)
  {
    forall m | 2 <= m <= n ensures f.neighbours[m].low < m && f.neighbours[m].high < m {
      NeighbourFacts(f, m);
    }
    hide Valid, Closest;
    forall k | 0 <= k < n
      ensures Corner(f, rs, k, n + 1) <==> Corner(f, rs, k, n) || (rs[n] != 0 && (f.neighbours[n].low == k || f.neighbours[n].high == k))
    {}
  }

  const UNUSED: int := -1

  /** Turns residuals into heights in place, and flags the corners of the curve. */
  method UnwrapHeights(f: Floor, range: nat, finalY: array<int>, step2: array<bool>)
    requires Valid(f) && |f.xs| <= finalY.Length && |f.xs| <= step2.Length
    requires Heights(finalY[..], |f.xs|, range)
    modifies finalY, step2
    ensures Heights(finalY[..], |f.xs|, range)
    ensures Codes(f, old(finalY[..]), finalY[..], |f.xs|, range)
    ensures Corners(f, old(finalY[..]), step2[..], |f.xs|)
    ensures forall j {:trigger finalY[j]} :: |f.xs| <= j < finalY.Length ==> finalY[j] == old(finalY[j])
  {
    hide Codes, Corners, Heights, Residual, Closest, Wrap, Unwrap, PredictPoint;
    ghost var rs := finalY[..];
    HeightsAt(rs, |f.xs|, range);
    step2[0], step2[1] := true, true;
    Begin(f, rs, step2[..], range);
    for j := 2 to |f.xs|
      invariant Heights(finalY[..], j, range) && Codes(f, rs, finalY[..], j, range) && Corners(f, rs, step2[..], j)
      invariant forall k {:trigger finalY[k]} :: j <= k < finalY.Length ==> finalY[k] == rs[k]
    {
      ghost var ys, flags := finalY[..], step2[..];
      NeighbourFacts(f, j);
      CodesNext(f, rs, ys, j, range);
      CornersNext(f, rs, flags, j);
      var low, high := f.neighbours[j].low, f.neighbours[j].high;
      var pred := Predicted(f, j, finalY[low], finalY[high]);
      var val := finalY[j];
      if val != 0 {
        step2[low] := true;
        step2[high] := true;
        step2[j] := true;
        assert step2[..] == flags[low := true][high := true][j := true];
      } else {
        step2[j] := false;
        assert step2[..] == flags[j := false];
      }
      finalY[j] := Unwrap(range, pred, val);
      assert finalY[..] == ys[j := Unwrap(range, Prediction(f, ys, j), rs[j])];
    }
  }

  lemma HeightsAt(ys: seq<int>, n: nat, range: nat)
    requires Heights(ys, n, range)
    ensures forall j {:trigger ys[j]} :: 0 <= j < n ==> 0 <= ys[j] < range
  {}

  lemma Begin(f: Floor, rs: seq<int>, step2: seq<bool>, range: nat)
    requires Valid(f) && |f.xs| <= |rs| && |f.xs| <= |step2| && step2[0] && step2[1] && Heights(rs, |f.xs|, range)
    ensures Heights(rs, 2, range) && Codes(f, rs, rs, 2, range) && Corners(f, rs, step2, 2)
  {}

  /** Points that are not corners are marked as unused. */
  method DropUnused(f: Floor, finalY: array<int>, step2: array<bool>)
    requires |f.xs| <= finalY.Length && |f.xs| <= step2.Length
    modifies finalY
    ensures forall j {:trigger finalY[j]} :: 0 <= j < finalY.Length ==>
      finalY[j] == if j < |f.xs| && !step2[j] then UNUSED else old(finalY[j])
  {
    for j := 0 to |f.xs|
      invariant forall k {:trigger finalY[k]} :: 0 <= k < finalY.Length ==>
        finalY[k] == if k < j && !step2[k] then UNUSED else old(finalY[k])
    {
      if !step2[j] {
        finalY[j] := UNUSED;
      }
    }
  }
}
