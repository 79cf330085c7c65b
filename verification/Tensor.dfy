/** Tensors as flat memory with sizes and strides: views, reshapes and padding as maps of indices. */
module Tensors {
  import opened Bits

  datatype Four = Four(x0: nat, x1: nat, x2: nat, x3: nat)

  /** Element (i0, i1, i2, i3) of a tensor lies at `off` plus each index times its stride. */
  datatype Tensor = Tensor(mem: seq<real>, off: nat, n: Four, b: Four)

  function Mul(a: nat, b: nat): nat
  {
    NonNegative(a, b);
    a * b
  }

  lemma NonNegative(a: nat, b: nat)
    ensures a * b >= 0
  {}

  function Place(off: nat, b: Four, i: Four): nat
  {
    off + Mul(i.x0, b.x0) + Mul(i.x1, b.x1) + Mul(i.x2, b.x2) + Mul(i.x3, b.x3)
  }

  predicate Inside(n: Four, i: Four)
  {
    i.x0 < n.x0 && i.x1 < n.x1 && i.x2 < n.x2 && i.x3 < n.x3
  }

  /** The element at an index; what lies outside the memory counts as zero, and `InBounds` says that nothing does. */
  function At(t: Tensor, i: Four): real
  {
    if Place(t.off, t.b, i) < |t.mem| then t.mem[Place(t.off, t.b, i)] else 0.0
  }

  /** Every element of the tensor lies in its memory. */
  ghost predicate InBounds(t: Tensor)
  {
    forall i {:trigger Inside(t.n, i)} :: Inside(t.n, i) ==> Place(t.off, t.b, i) < |t.mem|
  }

  // ----- contiguous tensors -----

  function Size(n: Four): nat
  {
    Mul(Mul(Mul(n.x0, n.x1), n.x2), n.x3)
  }

  function Strides(n: Four): Four
  {
    Four(1, n.x0, Mul(n.x0, n.x1), Mul(Mul(n.x0, n.x1), n.x2))
  }

  predicate Contiguous(t: Tensor)
  {
    t.off == 0 && t.b == Strides(t.n) && |t.mem| == Size(t.n)
  }

  /** Which index lies at a place of a contiguous tensor. */
  function IndexAt(n: Four, a: nat): Four
    requires Size(n) > 0
  {
    SizePositive(n);
    assert a / n.x0 >= 0 by { var q, r := QuotRem(a, n.x0); }
    assert a / n.x0 / n.x1 >= 0 by { var q, r := QuotRem(a / n.x0, n.x1); }
    assert a / n.x0 / n.x1 / n.x2 >= 0 by { var q, r := QuotRem(a / n.x0 / n.x1, n.x2); }
    Four(a % n.x0, a / n.x0 % n.x1, a / n.x0 / n.x1 % n.x2, a / n.x0 / n.x1 / n.x2)
  }

  lemma SizePositive(n: Four)
    ensures Size(n) > 0 ==> n.x0 > 0 && n.x1 > 0 && n.x2 > 0 && n.x3 > 0
  {
    if n.x0 == 0 || n.x1 == 0 || n.x2 == 0 || n.x3 == 0 {
      ZeroTimes(n.x1);
      ZeroTimes(n.x2);
      ZeroTimes(n.x3);
    }
  }

  lemma ZeroTimes(a: nat)
    ensures Mul(0, a) == 0 && Mul(a, 0) == 0
  {}

  /** A contiguous place in nested form. */
  lemma NestedPlace(n: Four, i: Four)
    ensures Place(0, Strides(n), i) == i.x0 + Mul(n.x0, i.x1 + Mul(n.x1, i.x2 + Mul(n.x2, i.x3)))
  {
    MulRules(n.x0, n.x1, n.x2, i);
  }

  lemma MulRules(a: nat, b: nat, c: nat, i: Four)
    ensures i.x0 + Mul(i.x1, a) + Mul(i.x2, Mul(a, b)) + Mul(i.x3, Mul(Mul(a, b), c)) ==
      i.x0 + Mul(a, i.x1 + Mul(b, i.x2 + Mul(c, i.x3)))
  {
    var z := Mul(c, i.x3);
    Distribute(i.x2, z, b);
    Distribute(i.x1, Mul(b, i.x2 + z), a);
    Distribute(Mul(b, i.x2), Mul(b, z), a);
    Associate(i.x2, a, b);
    Associate(a, b, i.x2);
    Associate(a, b, z);
    Associate(Mul(a, b), c, i.x3);
  }

  lemma Step(x: nat, n: nat, rest: nat)
    requires x < n
    ensures (x + Mul(n, rest)) % n == x && (x + Mul(n, rest)) / n == rest
  {
    DivUnique(x + Mul(n, rest), n, rest, x);
  }

  lemma IndexBack(n: Four, i: Four)
    requires Inside(n, i) && Size(n) > 0
    ensures IndexAt(n, Place(0, Strides(n), i)) == i
  {
    NestedPlace(n, i);
    Step(i.x0, n.x0, i.x1 + Mul(n.x1, i.x2 + Mul(n.x2, i.x3)));
    Step(i.x1, n.x1, i.x2 + Mul(n.x2, i.x3));
    Step(i.x2, n.x2, i.x3);
  }

  lemma Below(x: nat, n: nat, y: nat, m: nat)
    requires x < n && y < m
    ensures x + Mul(n, y) < Mul(n, m)
  {
    Distribute(m, y, n);
    AtLeast(m - y, n);
  }

  lemma PlaceBelowSize(n: Four, i: Four)
    requires Inside(n, i)
    ensures Place(0, Strides(n), i) < Size(n)
  {
    NestedPlace(n, i);
    Below(i.x2, n.x2, i.x3, n.x3);
    Below(i.x1, n.x1, i.x2 + Mul(n.x2, i.x3), Mul(n.x2, n.x3));
    Below(i.x0, n.x0, i.x1 + Mul(n.x1, i.x2 + Mul(n.x2, i.x3)), Mul(n.x1, Mul(n.x2, n.x3)));
    Associate(n.x0, n.x1, Mul(n.x2, n.x3));
    Associate(Mul(n.x0, n.x1), n.x2, n.x3);
  }

  lemma ContiguousInBounds(t: Tensor)
    requires Contiguous(t)
    ensures InBounds(t)
  {
    hide Place, Strides, Size;
    forall i | Inside(t.n, i) ensures Place(t.off, t.b, i) < |t.mem| {
      PlaceBelowSize(t.n, i);
    }
  }

  /** A contiguous tensor with the given elements. */
  function Build(n: Four, f: Four -> real): (t: Tensor)
    ensures Contiguous(t) && t.n == n
  {
    Tensor(seq(Size(n), a requires 0 <= a < Size(n) => f(IndexAt(n, a))), 0, n, Strides(n))
  }

  lemma BuildAt(n: Four, f: Four -> real, i: Four)
    requires Inside(n, i)
    ensures At(Build(n, f), i) == f(i)
  {
    PlaceBelowSize(n, i);
    IndexBack(n, i);
    hide Place, Size, Strides, IndexAt;
  }

  // ----- operations -----

  /** A contiguous copy. */
  function Cont(t: Tensor): (r: Tensor)
    ensures Contiguous(r) && r.n == t.n
  {
    Build(t.n, (i: Four) => At(t, i))
  }

  lemma ContAt(t: Tensor, i: Four)
    requires Inside(t.n, i)
    ensures At(Cont(t), i) == At(t, i)
  {
    hide At;
    BuildAt(t.n, (j: Four) => At(t, j), i);
  }

  function PadElement(t: Tensor, l0: nat, l1: nat, i: Four): real
  {
    if l0 <= i.x0 < l0 + t.n.x0 && l1 <= i.x1 < l1 + t.n.x1
    then At(t, Four(i.x0 - l0, i.x1 - l1, i.x2, i.x3)) else 0.0
  }

  /** Zeros before and after along the first two dimensions. */
  function Pad(t: Tensor, l0: nat, r0: nat, l1: nat, r1: nat): (r: Tensor)
    ensures Contiguous(r) && r.n == Four(l0 + t.n.x0 + r0, l1 + t.n.x1 + r1, t.n.x2, t.n.x3)
  {
    Build(Four(l0 + t.n.x0 + r0, l1 + t.n.x1 + r1, t.n.x2, t.n.x3), (i: Four) => PadElement(t, l0, l1, i))
  }

  lemma PadAt(t: Tensor, l0: nat, r0: nat, l1: nat, r1: nat, i: Four)
    requires Inside(Pad(t, l0, r0, l1, r1).n, i)
    ensures At(Pad(t, l0, r0, l1, r1), i) == PadElement(t, l0, l1, i)
  {
    hide At, PadElement;
    BuildAt(Four(l0 + t.n.x0 + r0, l1 + t.n.x1 + r1, t.n.x2, t.n.x3), (j: Four) => PadElement(t, l0, l1, j), i);
  }

  /** Elements move one further along the first dimension; the last comes to the front. */
  function RollElement(t: Tensor, i: Four): real
  {
    if i.x0 == 0 then At(t, i.(x0 := if t.n.x0 == 0 then 0 else t.n.x0 - 1)) else At(t, i.(x0 := i.x0 - 1))
  }

  function RollOne(t: Tensor): (r: Tensor)
    ensures Contiguous(r) && r.n == t.n
  {
    Build(t.n, (i: Four) => RollElement(t, i))
  }

  lemma RollAt(t: Tensor, i: Four)
    requires Inside(t.n, i)
    ensures At(RollOne(t), i) == RollElement(t, i)
  {
    hide At, RollElement;
    BuildAt(t.n, (j: Four) => RollElement(t, j), i);
  }

  /** The same memory with other sizes. */
  function Reshape(t: Tensor, n: Four): (r: Tensor)
    requires Contiguous(t) && Size(n) == Size(t.n)
    ensures Contiguous(r) && r.n == n
  {
    Tensor(t.mem, 0, n, Strides(n))
  }

  /** The same memory with other sizes and strides, from an offset on. */
  function View(t: Tensor, n: Four, b1: nat, b2: nat, b3: nat, off: nat): Tensor
  {
    Tensor(t.mem, t.off + off, n, Four(t.b.x0, b1, b2, b3))
  }

  function Transpose(t: Tensor): Tensor
  {
    Tensor(t.mem, t.off, Four(t.n.x1, t.n.x0, t.n.x2, t.n.x3), Four(t.b.x1, t.b.x0, t.b.x2, t.b.x3))
  }

  lemma TransposeAt(t: Tensor, i: Four)
    ensures At(Transpose(t), i) == At(t, Four(i.x1, i.x0, i.x2, i.x3))
  {}

  /** The sum of `f` over 0 up to `n`. */
  function Sum(n: nat, f: nat -> real): real
  {
    if n == 0 then 0.0 else Sum(n - 1, f) + f(n - 1)
  }

  function Product(a: real, b: real): real
  {
    a * b
  }

  function MulMatElement(a: Tensor, b: Tensor, i: Four): real
  {
    Sum(a.n.x0, (k: nat) => Product(At(a, Four(k, i.x0, i.x2, i.x3)), At(b, Four(k, i.x1, i.x2, i.x3))))
  }

  /** Rows against rows: element (i, j) is the inner product of row i of `a` and row j of `b`. */
  function MulMat(a: Tensor, b: Tensor): (r: Tensor)
    ensures Contiguous(r) && r.n == Four(a.n.x1, b.n.x1, b.n.x2, b.n.x3)
  {
    Build(Four(a.n.x1, b.n.x1, b.n.x2, b.n.x3), (i: Four) => MulMatElement(a, b, i))
  }

  lemma MulMatAt(a: Tensor, b: Tensor, i: Four)
    requires Inside(Four(a.n.x1, b.n.x1, b.n.x2, b.n.x3), i)
    ensures At(MulMat(a, b), i) == MulMatElement(a, b, i)
  {
    hide At, MulMatElement;
    BuildAt(Four(a.n.x1, b.n.x1, b.n.x2, b.n.x3), (j: Four) => MulMatElement(a, b, j), i);
  }

  function AddTensors(a: Tensor, b: Tensor): (r: Tensor)
    ensures Contiguous(r) && r.n == a.n
  {
    Build(a.n, (i: Four) => At(a, i) + At(b, i))
  }

  lemma AddAt(a: Tensor, b: Tensor, i: Four)
    requires Inside(a.n, i)
    ensures At(AddTensors(a, b), i) == At(a, i) + At(b, i)
  {
    hide At;
    BuildAt(a.n, (j: Four) => At(a, j) + At(b, j), i);
  }

  /** Times a matrix that is repeated along the last two dimensions. */
  function Masked(a: Tensor, b: Tensor): (r: Tensor)
    ensures Contiguous(r) && r.n == a.n
  {
    Build(a.n, (i: Four) => Product(At(a, i), At(b, Four(i.x0, i.x1, 0, 0))))
  }

  lemma MaskedAt(a: Tensor, b: Tensor, i: Four)
    requires Inside(a.n, i)
    ensures At(Masked(a, b), i) == Product(At(a, i), At(b, Four(i.x0, i.x1, 0, 0)))
  {
    hide At, Product;
    BuildAt(a.n, (j: Four) => Product(At(a, j), At(b, Four(j.x0, j.x1, 0, 0))), i);
  }

  // ----- sums -----

  lemma {:induction false} SumEqual(n: nat, f: nat -> real, g: nat -> real)
    requires forall k: nat {:trigger f(k)} :: k < n ==> f(k) == g(k)
    ensures Sum(n, f) == Sum(n, g)
  {
    if n > 0 {
      SumEqual(n - 1, f, g);
    }
  }

  lemma {:induction false} SumZero(n: nat, f: nat -> real)
    requires forall k: nat {:trigger f(k)} :: k < n ==> f(k) == 0.0
    ensures Sum(n, f) == 0.0
  {
    if n > 0 {
      SumZero(n - 1, f);
    }
  }

  lemma {:induction false} SumShift(n: nat, r: nat, f: nat -> real, g: nat -> real)
    requires forall k: nat {:trigger f(k)} :: k < r ==> f(k) == 0.0
    requires forall k: nat {:trigger g(k)} :: k < n ==> g(k) == f(r + k)
    ensures Sum(r + n, f) == Sum(n, g)
  {
    if n == 0 {
      SumZero(r, f);
    } else {
      SumShift(n - 1, r, f, g);
      assert g(n - 1) == f(r + (n - 1));
    }
  }

  /** A sum whose terms vanish except in a window is the sum over the window. */
  lemma {:induction false} SumWindow(n: nat, r: nat, w: nat, f: nat -> real, g: nat -> real)
    requires r + w <= n
    requires forall k: nat {:trigger f(k)} :: k < n && !(r <= k < r + w) ==> f(k) == 0.0
    requires forall k: nat {:trigger g(k)} :: k < w ==> g(k) == f(r + k)
    ensures Sum(n, f) == Sum(w, g)
    decreases n
  {
    if r + w == n {
      SumShift(w, r, f, g);
    } else {
      SumWindow(n - 1, r, w, f, g);
      assert f(n - 1) == 0.0;
    }
  }

  // ----- sums, in plain numbers -----

  function Total(xs: seq<real>): real
  {
    if xs == [] then 0.0 else xs[0] + Total(xs[1..])
  }

  lemma {:induction false} TotalNext(xs: seq<real>, x: real)
    ensures Total(xs + [x]) == Total(xs) + x
  {
    if xs == [] {
      assert ([x])[1..] == [];
    } else {
      TotalNext(xs[1..], x);
      assert (xs + [x])[1..] == xs[1..] + [x];
    }
  }

  /** A sum over numbers is that of the list of its terms. */
  lemma {:induction false} SumIsTotal(n: nat, f: nat -> real, xs: seq<real>)
    requires |xs| == n && forall k: nat {:trigger f(k)} {:trigger xs[k]} :: k < n ==> xs[k] == f(k)
    ensures Sum(n, f) == Total(xs)
  {
    if n > 0 {
      SumIsTotal(n - 1, f, xs[..n - 1]);
      TotalNext(xs[..n - 1], xs[n - 1]);
      assert xs[..n - 1] + [xs[n - 1]] == xs;
    }
  }
}
