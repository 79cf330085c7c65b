/** The recursive Cooley-Tukey transform with its shared scratch, against the direct transform. */
module Fft {
  import opened Bits
  import opened Trig

  /** Coefficient `k` of the discrete Fourier transform of `x`. */
  ghost function DftRe(c: Cache, x: seq<real>, k: nat): real
    requires |x| > 0
  {
    SumCos(c, x, k, c.nFft / |x|, |x|)
  }

  ghost function DftIm(c: Cache, x: seq<real>, k: nat): real
    requires |x| > 0
  {
    -SumSin(c, x, k, c.nFft / |x|, |x|)
  }

  ghost predicate Coefficient(c: Cache, x: seq<real>, o: seq<real>, k: nat)
    requires |x| > 0
  {
    2 * k + 1 < |o| && o[2 * k] == DftRe(c, x, k) && o[2 * k + 1] == DftIm(c, x, k)
  }

  ghost predicate CoefficientsBelow(c: Cache, x: seq<real>, o: seq<real>, n: nat)
    requires |x| > 0
  {
    forall k: nat {:trigger Coefficient(c, x, o, k)} :: k < n ==> Coefficient(c, x, o, k)
  }

  /** `o` is the transform of `x`, real and imaginary parts interleaved. */
  ghost predicate Transformed(c: Cache, x: seq<real>, o: seq<real>)
    requires |x| > 0
  {
    |o| == 2 * |x| && CoefficientsBelow(c, x, o, |x|)
  }

  ghost predicate Divides(n: nat, m: nat)
  {
    n > 0 && (m / n) * n == m
  }

  // ----- the direct transform -----

  method DftCoefficient(inp: array<real>, ib: nat, n: nat, k: nat, c: Cache) returns (re: real, im: real)
    requires n > 0 && ib + n <= inp.Length && IsTrig(c)
    ensures re == DftRe(c, inp[ib..ib + n], k) && im == DftIm(c, inp[ib..ib + n], k)
  {
    hide Mul, IsTrig, Cos, Sin, Angle;
    TableEntries(c);
    var sinCosStep := c.nFft / n;
    re, im := 0.0, 0.0;
    ghost var x := inp[ib..ib + n];
    for i := 0 to n
      invariant re == SumCos(c, x, k, sinCosStep, i)
      invariant im == -SumSin(c, x, k, sinCosStep, i)
    {
      var idx := TableIndex(c, Angle(k, i, sinCosStep)); // t = 2*pi*k*i/n
      assert x[i] == inp[ib + i];
      re := re + Mul(inp[ib + i], c.cosVals[idx]); // cos(t)
      im := im - Mul(inp[ib + i], c.sinVals[idx]); // sin(t)
    }
  }

  lemma TableEntries(c: Cache)
    requires IsTrig(c)
    ensures 0 < c.nFft <= |c.cosVals| && c.nFft <= |c.sinVals|
    ensures forall a: nat {:trigger TableIndex(c, a)} ::
      c.cosVals[TableIndex(c, a)] == Cos(c, a) && c.sinVals[TableIndex(c, a)] == Sin(c, a)
  {}

  function TableIndex(c: Cache, a: nat): (i: nat)
    requires c.nFft > 0
    ensures i < c.nFft
  {
    a % c.nFft
  }

  method Dft(inp: array<real>, ib: nat, n: nat, out: array<real>, ob: nat, c: Cache)
    requires n > 0 && inp != out && ib + n <= inp.Length && ob + 2 * n <= out.Length && IsTrig(c)
    modifies out
    ensures Transformed(c, inp[ib..ib + n], out[ob..ob + 2 * n]) && UnchangedOutside(out, ob, ob + 2 * n)
  {
    hide DftRe, DftIm, IsTrig, CoefficientsBelow;
    EmptyTransform(c, inp[ib..ib + n]);
    ghost var x, o := inp[ib..ib + n], [];
    for k := 0 to n
      invariant out[ob..ob + 2 * k] == o && CoefficientsBelow(c, x, o, k)
      invariant UnchangedOutside(out, ob, ob + 2 * n)
    {
      var re, im := DftCoefficient(inp, ib, n, k, c);
      out[ob + 2 * k] := re;
      out[ob + 2 * k + 1] := im;
      assert out[ob..ob + 2 * (k + 1)] == o + [re, im];
      OneMore(c, x, o, k);
      o := o + [re, im];
    }
  }

  /** Outside [lo, hi) the array is as before. */
  twostate predicate UnchangedOutside(a: array<real>, lo: nat, hi: nat)
    reads a
  {
    forall i {:trigger a[i]} :: 0 <= i < a.Length && !(lo <= i < hi) ==> a[i] == old(a[i])
  }

  lemma EmptyTransform(c: Cache, x: seq<real>)
    requires |x| > 0
    ensures CoefficientsBelow(c, x, [], 0)
  {}

  lemma OneMore(c: Cache, x: seq<real>, o: seq<real>, k: nat)
    requires k < |x| && |o| == 2 * k && CoefficientsBelow(c, x, o, k)
    ensures CoefficientsBelow(c, x, o + [DftRe(c, x, k), DftIm(c, x, k)], k + 1)
  {
    hide DftRe, DftIm;
    var o' := o + [DftRe(c, x, k), DftIm(c, x, k)];
    forall j: nat | j < k + 1
      ensures Coefficient(c, x, o', j)
    {
      assert j < k ==> Coefficient(c, x, o, j);
    }
  }

  // ----- the butterfly -----

  lemma HalfStep(c: Cache, n: nat)
    requires n > 0 && n % 2 == 0 && Divides(n, c.nFft)
    ensures c.nFft / (n / 2) == 2 * (c.nFft / n) && Divides(n / 2, c.nFft)
    ensures (n / 2) * (2 * (c.nFft / n)) == c.nFft
    ensures c.nFft % 2 == 0 && (n / 2) * (c.nFft / n) == c.nFft / 2
  {
    var h, step := n / 2, c.nFft / n;
    Associate(step, 2, h);
    Associate(2, step, h);
    DivUnique(c.nFft, h, 2 * step, 0);
  }

  /** Cosine and sine of `k` steps straight from the tables. */
  lemma DirectEntry(c: Cache, k: nat, step: nat, n: nat)
    requires IsTrig(c) && step * n == c.nFft && k < n
    ensures k * step < c.nFft && Cos(c, k * step) == c.cosVals[k * step] && Sin(c, k * step) == c.sinVals[k * step]
  {
    Distribute(n, k, step);
    if step > 0 {
      AtLeast(n - k, step);
    }
    DivUnique(k * step, c.nFft, 0, k * step);
  }

  lemma Negated(a: real, b: real)
    ensures Mul(-a, b) == -Mul(a, b) && Mul(a, -b) == -Mul(a, b)
  {}

  /** The two outputs computed from one coefficient of each half. */
  lemma Butterfly(c: Cache, x: seq<real>, k: nat)
    requires IsTrig(c) && |x| > 0 && |x| % 2 == 0 && Divides(|x|, c.nFft)
    ensures var h, step := |x| / 2, c.nFft / |x|;
      var re, im := Cos(c, k * step), -Sin(c, k * step);
      var er, ei, or, oi := DftRe(c, Evens(x), k), DftIm(c, Evens(x), k), DftRe(c, Odds(x), k), DftIm(c, Odds(x), k);
      && DftRe(c, x, k) == er + Mul(re, or) - Mul(im, oi)
      && DftIm(c, x, k) == ei + Mul(re, oi) + Mul(im, or)
      && DftRe(c, x, k + h) == er - Mul(re, or) + Mul(im, oi)
      && DftIm(c, x, k + h) == ei - Mul(re, oi) - Mul(im, or)
  {
    hide Cos, Sin, Mul, IsTrig;
    var h, step := |x| / 2, c.nFft / |x|;
    HalfStep(c, |x|);
    SplitSums(c, x, k, step, h);
    SplitSums(c, x, k + h, step, h);
    SumsPeriodic(c, Evens(x), k, h, 2 * step, h);
    SumsPeriodic(c, Odds(x), k, h, 2 * step, h);
    Distribute(k, h, step);
    HalfTurn(c, k * step);
    var cb, sb := Cos(c, k * step), Sin(c, k * step);
    var oc, os := SumCos(c, Odds(x), k, 2 * step, h), SumSin(c, Odds(x), k, 2 * step, h);
    Negated(cb, os);
    Negated(cb, oc);
    Negated(sb, oc);
    Negated(sb, os);
    Negated(-sb, os);
  }

  // ----- the recursive transform -----

  /** Gathers every second sample into the scratch behind the samples. */
  method Gather(inp: array<real>, ib: nat, n: nat, first: nat)
    requires n % 2 == 0 && ib + n + n / 2 <= inp.Length && first <= 1
    modifies inp
    ensures UnchangedOutside(inp, ib + n, ib + n + n / 2)
    ensures inp[ib + n..ib + n + n / 2] == if first == 0 then Evens(old(inp[ib..ib + n])) else Odds(old(inp[ib..ib + n]))
  {
    ghost var x := inp[ib..ib + n];
    ghost var picked := if first == 0 then Evens(x) else Odds(x);
    for i := 0 to n / 2
      invariant UnchangedOutside(inp, ib + n, ib + n + n / 2)
      invariant inp[ib..ib + n] == x && inp[ib + n..ib + n + i] == picked[..i]
    {
      assert inp[ib + 2 * i + first] == x[2 * i + first] == picked[i];
      inp[ib + n + i] := inp[ib + 2 * i + first];
    }
  }

  /** The two outputs that come from coefficient `k` of the halves. */
  ghost predicate Paired(c: Cache, x: seq<real>, o: seq<real>, k: nat)
    requires |x| > 0
  {
    Coefficient(c, x, o, k) && Coefficient(c, x, o, k + |x| / 2)
  }

  ghost predicate PairedBelow(c: Cache, x: seq<real>, o: seq<real>, n: nat)
    requires |x| > 0
  {
    forall k: nat {:trigger Paired(c, x, o, k)} :: k < n ==> Paired(c, x, o, k)
  }

  /** Combines the transforms of the halves, stored at `ob + 2n` and `ob + 3n`. */
  method Combine(out: array<real>, ob: nat, n: nat, c: Cache, ghost x: seq<real>)
    requires n > 0 && n % 2 == 0 && |x| == n && ob + 4 * n <= out.Length && IsTrig(c) && Divides(n, c.nFft)
    requires Transformed(c, Evens(x), out[ob + 2 * n..ob + 3 * n]) && Transformed(c, Odds(x), out[ob + 3 * n..ob + 4 * n])
    modifies out
    ensures Transformed(c, x, out[ob..ob + 2 * n]) && UnchangedOutside(out, ob, ob + 2 * n)
  {
    hide Coefficient, IsTrig, Divides, PairedBelow, Paired;
    var h := n / 2;
    ghost var even, odd, o := out[ob + 2 * n..ob + 3 * n], out[ob + 3 * n..ob + 4 * n], out[ob..ob + 2 * n];
    NoPairs(c, x, o);
    for k := 0 to h
      invariant UnchangedOutside(out, ob, ob + 2 * n)
      invariant out[ob + 2 * n..ob + 3 * n] == even && out[ob + 3 * n..ob + 4 * n] == odd
      invariant out[ob..ob + 2 * n] == o && PairedBelow(c, x, o, k)
    {
      assert Coefficient(c, Evens(x), even, k) && Coefficient(c, Odds(x), odd, k);
      CombineOne(out, ob, n, k, c, x);
      KeepPairs(c, x, o, out[ob..ob + 2 * n], k);
      o := out[ob..ob + 2 * n];
    }
    AllPaired(c, x, o);
  }

  lemma NoPairs(c: Cache, x: seq<real>, o: seq<real>)
    requires |x| > 0
    ensures PairedBelow(c, x, o, 0)
  {}

  /** `o` with the two outputs of pair `k` stored. */
  function WithPair(o: seq<real>, k: nat, h: nat, re0: real, im0: real, re1: real, im1: real): (p: seq<real>)
    requires k < h && |o| == 4 * h
    ensures |p| == |o|
  {
    o[2 * k := re0][2 * k + 1 := im0][2 * (k + h) := re1][2 * (k + h) + 1 := im1]
  }

  lemma KeepPairs(c: Cache, x: seq<real>, o: seq<real>, p: seq<real>, k: nat)
    requires |x| > 0 && |x| % 2 == 0 && k < |x| / 2 && |o| == 2 * |x| && PairedBelow(c, x, o, k)
    requires var h := |x| / 2;
      p == WithPair(o, k, h, DftRe(c, x, k), DftIm(c, x, k), DftRe(c, x, k + h), DftIm(c, x, k + h))
    ensures PairedBelow(c, x, p, k + 1)
  {
    hide DftRe, DftIm;
    forall j: nat | j < k + 1
      ensures Paired(c, x, p, j)
    {
      assert j < k ==> Paired(c, x, o, j);
    }
  }

  lemma AllPaired(c: Cache, x: seq<real>, o: seq<real>)
    requires |x| > 0 && |x| % 2 == 0 && |o| == 2 * |x| && PairedBelow(c, x, o, |x| / 2)
    ensures Transformed(c, x, o)
  {
    hide Coefficient;
    forall k: nat | k < |x|
      ensures Coefficient(c, x, o, k)
    {
      assert Paired(c, x, o, if k < |x| / 2 then k else k - |x| / 2);
    }
  }

  method CombineOne(out: array<real>, ob: nat, n: nat, k: nat, c: Cache, ghost x: seq<real>)
    requires n > 0 && n % 2 == 0 && |x| == n && k < n / 2 && ob + 4 * n <= out.Length && IsTrig(c) && Divides(n, c.nFft)
    requires Coefficient(c, Evens(x), out[ob + 2 * n..ob + 3 * n], k) && Coefficient(c, Odds(x), out[ob + 3 * n..ob + 4 * n], k)
    modifies out
    ensures UnchangedOutside(out, ob, ob + 2 * n)
    ensures var h := n / 2;
      out[ob..ob + 2 * n] ==
        WithPair(old(out[ob..ob + 2 * n]), k, h, DftRe(c, x, k), DftIm(c, x, k), DftRe(c, x, k + h), DftIm(c, x, k + h))
  {
    hide DftRe, DftIm, IsTrig, Cos, Sin, Mul;
    var h := n / 2;
    var even, odd := ob + 2 * n, ob + 2 * n + n;
    var sinCosStep := c.nFft / n;
    TableEntries(c);
    DirectEntry(c, k, sinCosStep, n);
    Butterfly(c, x, k);
    var idx := k * sinCosStep; // t = 2*pi*k/n
    var re, im := c.cosVals[idx], -c.sinVals[idx]; // cos(t), -sin(t)
    var reOdd, imOdd := out[odd + 2 * k], out[odd + 2 * k + 1];
    var reEven, imEven := out[even + 2 * k], out[even + 2 * k + 1];
    StorePair(out, ob, k, h,
      reEven + Mul(re, reOdd) - Mul(im, imOdd),
      imEven + Mul(re, imOdd) + Mul(im, reOdd),
      reEven - Mul(re, reOdd) + Mul(im, imOdd),
      imEven - Mul(re, imOdd) - Mul(im, reOdd));
  }

  method StorePair(out: array<real>, ob: nat, k: nat, h: nat, re0: real, im0: real, re1: real, im1: real)
    requires k < h && ob + 4 * h <= out.Length
    modifies out
    ensures UnchangedOutside(out, ob, ob + 4 * h)
    ensures out[ob..ob + 4 * h] == WithPair(old(out[ob..ob + 4 * h]), k, h, re0, im0, re1, im1)
  {
    out[ob + 2 * k] := re0;
    out[ob + 2 * k + 1] := im0;
    out[ob + 2 * (k + h)] := re1;
    out[ob + 2 * (k + h) + 1] := im1;
  }

  lemma OneSample(c: Cache, x: seq<real>)
    requires IsTrig(c) && |x| == 1
    ensures Transformed(c, x, [x[0], 0.0])
  {
    assert SumCos(c, x, 0, c.nFft / 1, 1) == 0.0 + Mul(x[0], Cos(c, Angle(0, 0, c.nFft / 1)));
    assert SumSin(c, x, 0, c.nFft / 1, 1) == 0.0 + Mul(x[0], Sin(c, Angle(0, 0, c.nFft / 1)));
  }

  /**
   The transform of the `n` samples at `ib`, computed recursively with even and odd samples gathered in
   the same scratch and an odd number of samples left to the direct transform. It leaves the samples as
   they are and touches only the `2n` input and `6n` output slots from its two base positions on.
   */
  method FftRecursive(inp: array<real>, ib: nat, n: nat, out: array<real>, ob: nat, c: Cache)
    requires IsTrig(c) && Divides(n, c.nFft) && inp != out
    requires ib + 2 * n <= inp.Length && ob + 6 * n <= out.Length
    modifies inp, out
    ensures n > 0 && Transformed(c, old(inp[ib..ib + n]), out[ob..ob + 2 * n])
    ensures UnchangedOutside(inp, ib + n, ib + 2 * n) && UnchangedOutside(out, ob, ob + 6 * n)
    decreases n
  {
    hide IsTrig, Transformed;
    ghost var x := inp[ib..ib + n];
    if n == 1 {
      out[ob] := inp[ib];
      out[ob + 1] := 0.0;
      OneSample(c, x);
      assert out[ob..ob + 2] == [x[0], 0.0];
      return;
    }
    var halfN := n / 2;
    if n - halfN * 2 == 1 {
      Dft(inp, ib, n, out, ob, c);
      return;
    }
    HalfStep(c, n);
    TransformHalf(inp, ib, n, 0, out, ob + 2 * n, c);
    ghost var even := out[ob + 2 * n..ob + 3 * n];
    assert inp[ib..ib + n] == x;
    TransformHalf(inp, ib, n, 1, out, ob + 2 * n + n, c);
    assert out[ob + 2 * n..ob + 3 * n] == even;
    Combine(out, ob, n, c, x);
  }

  /** The transform of the even or of the odd samples, through the scratch behind the samples. */
  method TransformHalf(inp: array<real>, ib: nat, n: nat, first: nat, out: array<real>, ob: nat, c: Cache)
    requires IsTrig(c) && n > 1 && n % 2 == 0 && Divides(n / 2, c.nFft) && inp != out && first <= 1
    requires ib + 2 * n <= inp.Length && ob + 3 * n <= out.Length
    modifies inp, out
    ensures var x := old(inp[ib..ib + n]); Transformed(c, if first == 0 then Evens(x) else Odds(x), out[ob..ob + n])
    ensures UnchangedOutside(inp, ib + n, ib + 2 * n) && UnchangedOutside(out, ob, ob + 3 * n)
    decreases n, 0
  {
    hide IsTrig, Transformed, Divides;
    Gather(inp, ib, n, first);
    FftRecursive(inp, ib + n, n / 2, out, ob, c);
  }
}
