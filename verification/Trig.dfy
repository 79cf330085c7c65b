/** The precomputed sine and cosine tables, over exact reals: entry `i` stands for the angle 2*pi*i/nFft. */
module Trig {
  import opened Bits

  datatype Cache = Cache(nFft: nat, sinVals: seq<real>, cosVals: seq<real>)

  /** The cosine and sine of `a` table steps, for any `a`. */
  ghost function Cos(c: Cache, a: nat): real
  {
    if 0 < c.nFft <= |c.cosVals| then c.cosVals[a % c.nFft] else 0.0
  }

  ghost function Sin(c: Cache, a: nat): real
  {
    if 0 < c.nFft <= |c.sinVals| then c.sinVals[a % c.nFft] else 0.0
  }

  /** Multiplication, named so that proofs can leave it alone. */
  function Mul(a: real, b: real): real
  {
    a * b
  }

  ghost predicate AngleSum(c: Cache, i: nat, j: nat)
  {
    Cos(c, i + j) == Mul(Cos(c, i), Cos(c, j)) - Mul(Sin(c, i), Sin(c, j)) &&
    Sin(c, i + j) == Mul(Sin(c, i), Cos(c, j)) + Mul(Cos(c, i), Sin(c, j))
  }

  /** What the tables have in common with sine and cosine: the angle-addition law, and the values at 0 and at pi. */
  ghost predicate IsTrig(c: Cache)
  {
    0 < c.nFft <= |c.cosVals| && c.nFft <= |c.sinVals| &&
    Cos(c, 0) == 1.0 && Sin(c, 0) == 0.0 &&
    (c.nFft % 2 == 0 ==> Cos(c, c.nFft / 2) == -1.0 && Sin(c, c.nFft / 2) == 0.0) &&
    forall i: nat, j: nat {:trigger AngleSum(c, i, j)} :: i < c.nFft && j < c.nFft ==> AngleSum(c, i, j)
  }

  lemma AddMultiple(a: nat, q: nat, m: nat)
    requires m > 0
    ensures (a + q * m) % m == a % m
  {
    var d, r := QuotRem(a, m);
    Distribute(d, q, m);
    DivUnique(a + q * m, m, d + q, r);
  }

  lemma Period(c: Cache, a: nat, q: nat)
    requires IsTrig(c)
    ensures Cos(c, a + q * c.nFft) == Cos(c, a) && Sin(c, a + q * c.nFft) == Sin(c, a)
  {
    AddMultiple(a, q, c.nFft);
  }

  /** The angle-addition law holds for any angles. */
  lemma Addition(c: Cache, a: nat, b: nat)
    requires IsTrig(c)
    ensures AngleSum(c, a, b)
  {
    hide Cos, Sin, Mul;
    var p, i := QuotRem(a, c.nFft);
    var q, j := QuotRem(b, c.nFft);
    assert AngleSum(c, i, j);
    Reduced(c, a, i, p);
    Reduced(c, b, j, q);
    Distribute(p, q, c.nFft);
    Reduced(c, a + b, i + j, p + q);
  }

  lemma Reduced(c: Cache, a: nat, i: nat, p: nat)
    requires IsTrig(c) && a == i + p * c.nFft
    ensures Cos(c, a) == Cos(c, i) && Sin(c, a) == Sin(c, i)
  {
    AddMultiple(i, p, c.nFft);
  }

  /** Half a turn negates. */
  lemma HalfTurn(c: Cache, a: nat)
    requires IsTrig(c) && c.nFft % 2 == 0
    ensures Cos(c, a + c.nFft / 2) == -Cos(c, a) && Sin(c, a + c.nFft / 2) == -Sin(c, a)
  {
    Addition(c, a, c.nFft / 2);
  }

  // ----- sums of samples times cosines or sines of equally spaced angles -----

  function Angle(k: nat, i: nat, step: nat): nat
  {
    k * i * step
  }

  ghost function SumCos(c: Cache, x: seq<real>, k: nat, step: nat, m: nat): real
    requires m <= |x|
  {
    if m == 0 then 0.0 else SumCos(c, x, k, step, m - 1) + Mul(x[m - 1], Cos(c, Angle(k, m - 1, step)))
  }

  ghost function SumSin(c: Cache, x: seq<real>, k: nat, step: nat, m: nat): real
    requires m <= |x|
  {
    if m == 0 then 0.0 else SumSin(c, x, k, step, m - 1) + Mul(x[m - 1], Sin(c, Angle(k, m - 1, step)))
  }

  function Evens(x: seq<real>): (r: seq<real>)
    ensures |r| == |x| / 2 && forall i {:trigger r[i]} :: 0 <= i < |r| ==> r[i] == x[2 * i]
  {
    seq(|x| / 2, i requires 0 <= i < |x| / 2 => x[2 * i])
  }

  function Odds(x: seq<real>): (r: seq<real>)
    ensures |r| == |x| / 2 && forall i {:trigger r[i]} :: 0 <= i < |r| ==> r[i] == x[2 * i + 1]
  {
    seq(|x| / 2, i requires 0 <= i < |x| / 2 => x[2 * i + 1])
  }

  lemma EvenAngle(k: nat, m: nat, step: nat)
    ensures Angle(k, 2 * m, step) == Angle(k, m, 2 * step)
  {
    Associate(k, 2 * m, step);
    Associate(k, m, 2 * step);
    Associate(2, m, step);
    Associate(m, 2, step);
  }

  lemma OddAngle(k: nat, m: nat, step: nat)
    ensures Angle(k, 2 * m + 1, step) == Angle(k, m, 2 * step) + k * step
  {
    EvenAngle(k, m, step);
    Distribute(2 * m, 1, k);
    Distribute(k * (2 * m), k, step);
  }

  lemma PeriodAngle(k: nat, h: nat, i: nat, step: nat, period: nat)
    requires h * step == period
    ensures Angle(k + h, i, step) == Angle(k, i, step) + i * period
  {
    Distribute(k, h, i);
    Distribute(k * i, h * i, step);
    Associate(i, h, step);
  }

  lemma TwoMoreCos(c: Cache, x: seq<real>, k: nat, step: nat, m: nat)
    requires m + 2 <= |x|
    ensures SumCos(c, x, k, step, m + 2) ==
      SumCos(c, x, k, step, m) + Mul(x[m], Cos(c, Angle(k, m, step))) + Mul(x[m + 1], Cos(c, Angle(k, m + 1, step)))
  {
    hide Cos, Angle, Mul;
    assert SumCos(c, x, k, step, m + 1) == SumCos(c, x, k, step, m) + Mul(x[m], Cos(c, Angle(k, m, step)));
  }

  lemma TwoMoreSin(c: Cache, x: seq<real>, k: nat, step: nat, m: nat)
    requires m + 2 <= |x|
    ensures SumSin(c, x, k, step, m + 2) ==
      SumSin(c, x, k, step, m) + Mul(x[m], Sin(c, Angle(k, m, step))) + Mul(x[m + 1], Sin(c, Angle(k, m + 1, step)))
  {
    hide Sin, Angle, Mul;
    assert SumSin(c, x, k, step, m + 1) == SumSin(c, x, k, step, m) + Mul(x[m], Sin(c, Angle(k, m, step)));
  }

  /** One pair of samples in the two halves of the split. */
  lemma PairOfTerms(ec: real, es: real, oc: real, os: real, x0: real, x1: real, ca: real, sa: real, cb: real, sb: real)
    ensures ec + Mul(cb, oc) - Mul(sb, os) + Mul(x0, ca) + Mul(x1, Mul(ca, cb) - Mul(sa, sb))
      == ec + Mul(x0, ca) + Mul(cb, oc + Mul(x1, ca)) - Mul(sb, os + Mul(x1, sa))
    ensures es + Mul(cb, os) + Mul(sb, oc) + Mul(x0, sa) + Mul(x1, Mul(sa, cb) + Mul(ca, sb))
      == es + Mul(x0, sa) + Mul(cb, os + Mul(x1, sa)) + Mul(sb, oc + Mul(x1, ca))
  {}

  /** Decimation in time: the sum over all samples from those over even and odd ones. */
  lemma {:induction false} SplitSums(c: Cache, x: seq<real>, k: nat, step: nat, m: nat)
    requires IsTrig(c) && 2 * m <= |x|
    ensures var cb, sb := Cos(c, k * step), Sin(c, k * step);
      var oc, os := SumCos(c, Odds(x), k, 2 * step, m), SumSin(c, Odds(x), k, 2 * step, m);
      && SumCos(c, x, k, step, 2 * m) == SumCos(c, Evens(x), k, 2 * step, m) + Mul(cb, oc) - Mul(sb, os)
      && SumSin(c, x, k, step, 2 * m) == SumSin(c, Evens(x), k, 2 * step, m) + Mul(cb, os) + Mul(sb, oc)
  {
    hide Cos, Sin, Angle, Mul;
    var b := k * step;
    if m == 0 {
      MulZero(Cos(c, b));
      MulZero(Sin(c, b));
    } else {
      var n := m - 1;
      var a := Angle(k, n, 2 * step);
      SplitSums(c, x, k, step, n);
      TwoMoreCos(c, x, k, step, 2 * n);
      TwoMoreSin(c, x, k, step, 2 * n);
      EvenAngle(k, n, step);
      OddAngle(k, n, step);
      Addition(c, a, b);
      PairOfTerms(SumCos(c, Evens(x), k, 2 * step, n), SumSin(c, Evens(x), k, 2 * step, n),
        SumCos(c, Odds(x), k, 2 * step, n), SumSin(c, Odds(x), k, 2 * step, n),
        x[2 * n], x[2 * n + 1], Cos(c, a), Sin(c, a), Cos(c, b), Sin(c, b));
    }
  }

  lemma MulZero(a: real)
    ensures Mul(a, 0.0) == 0.0
  {}

  /** A whole period further the sums are the same. */
  lemma {:induction false} SumsPeriodic(c: Cache, x: seq<real>, k: nat, h: nat, step: nat, m: nat)
    requires IsTrig(c) && m <= |x| && h * step == c.nFft
    ensures SumCos(c, x, k + h, step, m) == SumCos(c, x, k, step, m)
    ensures SumSin(c, x, k + h, step, m) == SumSin(c, x, k, step, m)
  {
    hide Cos, Sin, Angle, Mul;
    if m > 0 {
      SumsPeriodic(c, x, k, h, step, m - 1);
      PeriodAngle(k, h, m - 1, step, c.nFft);
      Period(c, Angle(k, m - 1, step), m - 1);
    }
  }
}
