/** A channel's floor from the residuals just read to the scaled spectrum. */
module FloorDecode {
  import opened FloorLine
  import opened FloorSetup
  import opened FloorUnwrap
  import opened FloorCurve

  lemma KeptAt(f: Floor, rs: seq<int>, ys: seq<int>, step2: seq<bool>, final: seq<int>)
    requires |f.xs| <= |rs| && |f.xs| <= |f.neighbours| && |f.xs| <= |ys| && |f.xs| <= |step2| && |f.xs| <= |final|
    requires Corners(f, rs, step2, |f.xs|)
    requires forall j {:trigger final[j]} :: 0 <= j < |f.xs| ==> final[j] == if !step2[j] then UNUSED else ys[j]
    ensures Kept(f, rs, ys, final[..|f.xs|])
  {
    hide Corner;
    var kept := final[..|f.xs|];
    forall j {:trigger kept[j]} | 0 <= j < |f.xs| ensures kept[j] == if Corner(f, rs, j, |f.xs|) then ys[j] else -1 {
      assert final[j] == kept[j] && step2[j] == Corner(f, rs, j, |f.xs|);
    }
  }

  /** `ys` are the heights that the residuals code; the curve runs through those that are corners. */
  method DecodeFloor(f: Floor, finalY: array<int>, step2: array<bool>, table: seq<real>, target: array<real>, n: nat)
    returns (ghost ys: seq<int>)
    requires Valid(f) && 1 <= f.multiplier <= 4 && |f.xs| <= finalY.Length && |f.xs| <= step2.Length
    requires Heights(finalY[..], |f.xs|, RangeOf(f.multiplier))
    requires |table| == LEVELS && n <= target.Length
    modifies finalY, step2, target
    ensures |ys| == finalY.Length && Heights(ys, |f.xs|, RangeOf(f.multiplier))
    ensures Codes(f, old(finalY[..]), ys, |f.xs|, RangeOf(f.multiplier))
    ensures Kept(f, old(finalY[..]), ys, finalY[..|f.xs|])
    ensures Rendered(f, finalY[..|f.xs|], table, old(target[..]), target[..], n)
  {
    hide Rendered, Codes, Corners, Heights, Kept, ScaledTo, Unwrapped;
    var range := RangeOf(f.multiplier);
    ghost var rs := finalY[..];
    UnwrapHeights(f, range, finalY, step2);
    ys := finalY[..];
    DropUnused(f, finalY, step2);
    assert forall j {:trigger finalY[..][j]} :: 0 <= j < |f.xs| ==> finalY[..][j] == if !step2[..][j] then UNUSED else ys[j];
    KeptAt(f, rs, ys, step2[..], finalY[..]);
    assert finalY[..][..|f.xs|] == finalY[..|f.xs|];
    KeptIsUnwrapped(f, rs, ys, finalY[..|f.xs|]);
    RenderFloor(f, finalY[..|f.xs|], table, target, n);
  }
}
