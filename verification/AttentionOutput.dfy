/** Windowed attention: probabilities spread back over the chunk's keys, and the weighted sum of values. */
module AttentionOutput {
  import opened Bits
  import opened Tensors
  import opened LocalAttention

  /** Rows padded by a chunk, then read with rows one element shorter: each next query's window starts one further along. */
  function Spread(probs: Tensor, s: Dims): (r: Tensor)
    requires Sensible(s) && Contiguous(probs) && probs.n == Four(Window(s), s.t, s.h, 1)
    ensures Contiguous(r) && r.n == Four(Window(s) + Chunk(s), Chunk(s), Groups(s), s.h)
  {
    Pad(Grouped(PadFrames(probs, s), Chunk(s), Groups(s)), 0, Chunk(s), 0, 0)
  }

  function UnskewView(p: Tensor, s: Dims): Tensor
    requires Sensible(s)
  {
    View(p, Four(KvChunk(s), Chunk(s), Groups(s), s.h), Mul(KvChunk(s), p.b.x0), p.b.x2, p.b.x3, 0)
  }

  lemma UnskewPlace(v: nat, b2: nat, b3: nat, k: nat, r: nat, g: nat, h: nat)
    ensures k >= r ==> Place(0, Four(1, Mul(v, 1), b2, b3), Four(k, r, g, h)) == Place(0, Four(1, v + 1, b2, b3), Four(k - r, r, g, h))
    ensures k < r <= k + v + 1 ==>
      Place(0, Four(1, Mul(v, 1), b2, b3), Four(k, r, g, h)) == Place(0, Four(1, v + 1, b2, b3), Four(v + 1 + k - r, r - 1, g, h))
  {
    Distribute(v, 1, r);
    Distribute(r, 1, v + 1);
  }

  /** Which element of the spread rows an entry of the view is. */
  function Source(s: Dims, k: nat, r: nat, g: nat, h: nat): Four
    requires r < Chunk(s)
  {
    if k >= r then Four(k - r, r, g, h) else Four(KvChunk(s) + 1 + k - r, r - 1, g, h)
  }

  lemma UnskewViewAt(p: Tensor, s: Dims, k: nat, r: nat, g: nat, h: nat)
    requires Sensible(s) && Contiguous(p) && p.n == Four(Window(s) + Chunk(s), Chunk(s), Groups(s), s.h)
    requires k < KvChunk(s) && r < Chunk(s) && g < Groups(s) && h < s.h
    ensures At(UnskewView(p, s), Four(k, r, g, h)) == At(p, Source(s, k, r, g, h))
    ensures Place(UnskewView(p, s).off, UnskewView(p, s).b, Four(k, r, g, h)) < |p.mem|
  {
    UnskewPlace(KvChunk(s), p.b.x2, p.b.x3, k, r, g, h);
    assert Window(s) + Chunk(s) == KvChunk(s) + 1;
    assert Inside(p.n, Source(s, k, r, g, h));
    PlaceBelowSize(p.n, Source(s, k, r, g, h));
    hide Place, Groups, Mul, Size, Window, Chunk, KvChunk;
  }

  lemma UnskewInBounds(p: Tensor, s: Dims)
    requires Sensible(s) && Contiguous(p) && p.n == Four(Window(s) + Chunk(s), Chunk(s), Groups(s), s.h)
    ensures InBounds(UnskewView(p, s))
  {
    hide At, Place, Groups;
    forall i | Inside(UnskewView(p, s).n, i) ensures Place(UnskewView(p, s).off, UnskewView(p, s).b, i) < |UnskewView(p, s).mem| {
      UnskewViewAt(p, s, i.x0, i.x1, i.x2, i.x3);
    }
  }

  lemma SpreadAt(probs: Tensor, s: Dims, w: nat, r: nat, g: nat, h: nat)
    requires Sensible(s) && Contiguous(probs) && probs.n == Four(Window(s), s.t, s.h, 1)
    requires w < Window(s) + Chunk(s) && r < Chunk(s) && g < Groups(s) && h < s.h
    ensures var q := Mul(g, Chunk(s)) + r;
      At(Spread(probs, s), Four(w, r, g, h)) == if w < Window(s) && q < s.t then At(probs, Four(w, q, h, 0)) else 0.0
  {
    var grouped := Grouped(PadFrames(probs, s), Chunk(s), Groups(s));
    var q := Mul(g, Chunk(s)) + r;
    Below(r, Chunk(s), g, Groups(s));
    hide At, Contiguous, Grouped, PadFrames, Groups, Size;
    PadAt(grouped, 0, Chunk(s), 0, 0, Four(w, r, g, h));
    GroupedAt(PadFrames(probs, s), Chunk(s), Groups(s), Four(w, r, g, h));
    if w < Window(s) {
      PadFramesAt(probs, s, w, q, h);
    }
  }

  /** 1 on the diagonal band of window width, 0 elsewhere. */
  function MaskValue(s: Dims, k: nat, r: nat): real
  {
    if 0 <= k - r < Window(s) then 1.0 else 0.0
  }

  ghost predicate IsMask(mask: Tensor, s: Dims)
  {
    forall k: nat, r: nat {:trigger MaskValue(s, k, r)} :: k < KvChunk(s) && r < Chunk(s) ==> At(mask, Four(k, r, 0, 0)) == MaskValue(s, k, r)
  }

  function Weights(probs: Tensor, mask: Tensor, s: Dims): (r: Tensor)
    requires Sensible(s) && Contiguous(probs) && probs.n == Four(Window(s), s.t, s.h, 1)
    ensures Contiguous(r) && r.n == Four(KvChunk(s), Chunk(s), Groups(s), s.h)
  {
    Masked(Cont(UnskewView(Spread(probs, s), s)), mask)
  }

  lemma ProductOneZero(a: real)
    ensures Product(a, 1.0) == a && Product(a, 0.0) == 0.0 && Product(0.0, a) == 0.0
  {}

  /** Key `k` of the chunk gets the probability of its place in the query's window, or nothing. */
  lemma WeightAt(probs: Tensor, mask: Tensor, s: Dims, k: nat, r: nat, g: nat, h: nat)
    requires Sensible(s) && Contiguous(probs) && probs.n == Four(Window(s), s.t, s.h, 1) && IsMask(mask, s)
    requires k < KvChunk(s) && r < Chunk(s) && g < Groups(s) && h < s.h && Mul(g, Chunk(s)) + r < s.t
    ensures At(Weights(probs, mask, s), Four(k, r, g, h)) ==
      if 0 <= k - r < Window(s) then At(probs, Four(k - r, Mul(g, Chunk(s)) + r, h, 0)) else 0.0
  {
    var p := Spread(probs, s);
    var u := Cont(UnskewView(p, s));
    assert At(mask, Four(k, r, 0, 0)) == MaskValue(s, k, r);
    hide At, Contiguous, Spread, Groups, Mul, Size, Place;
    MaskedAt(u, mask, Four(k, r, g, h));
    ContAt(UnskewView(p, s), Four(k, r, g, h));
    UnskewViewAt(p, s, k, r, g, h);
    ProductOneZero(At(p, Source(s, k, r, g, h)));
    if 0 <= k - r < Window(s) {
      SpreadAt(probs, s, k - r, r, g, h);
    }
  }

  // ----- values -----

  function ValueSource(v: Tensor, s: Dims): (r: Tensor)
    requires Sensible(s) && Framed(v, s)
    ensures Contiguous(r) && r.n == Four(PadKeys(v, s).n.x1, s.d, s.h, 1)
  {
    Cont(Transpose(PadKeys(v, s)))
  }

  function ValueView(v: Tensor, s: Dims): Tensor
    requires Sensible(s) && Framed(v, s)
  {
    var p := ValueSource(v, s);
    View(p, Four(KvChunk(s), s.d, Groups(s), s.h), p.b.x1, Mul(Chunk(s), p.b.x0), p.b.x2, 0)
  }

  lemma ValuePlace(b1: nat, b2: nat, c: nat, i: Four)
    ensures Place(0, Four(1, b1, Mul(c, 1), b2), i) == Place(0, Four(1, b1, b2, 0), Four(Mul(i.x2, c) + i.x0, i.x1, i.x3, 0))
  {}

  lemma ValueViewAt(v: Tensor, s: Dims, k: nat, d: nat, g: nat, h: nat)
    requires Sensible(s) && Framed(v, s) && k < KvChunk(s) && d < s.d && g < Groups(s) && h < s.h
    ensures At(ValueView(v, s), Four(k, d, g, h)) == Frame(v, s, d, Mul(g, Chunk(s)) + k - s.w, h)
    ensures Place(ValueView(v, s).off, ValueView(v, s).b, Four(k, d, g, h)) < |ValueView(v, s).mem|
  {
    var p := ValueSource(v, s);
    var f := Mul(g, Chunk(s)) + k;
    ChunkReach(s, k, g);
    assert Inside(p.n, Four(f, d, h, 0));
    PlaceBelowSize(p.n, Four(f, d, h, 0));
    ValuePlace(p.b.x1, p.b.x2, Chunk(s), Four(k, d, g, h));
    StrideIrrelevant(p.b, 0, Four(f, d, h, 0));
    ValueSourceAt(v, s, f, d, h);
    hide Mul, Groups, ValueSource, Place, Frame, Size;
  }

  lemma ValueSourceAt(v: Tensor, s: Dims, f: nat, d: nat, h: nat)
    requires Sensible(s) && Framed(v, s) && f < PadKeys(v, s).n.x1 && d < s.d && h < s.h
    ensures At(ValueSource(v, s), Four(f, d, h, 0)) == Frame(v, s, d, f - s.w, h)
  {
    hide At, Frame, PadKeys, Groups;
    ContAt(Transpose(PadKeys(v, s)), Four(f, d, h, 0));
    TransposeAt(PadKeys(v, s), Four(f, d, h, 0));
    PadKeysAt(v, s, d, f, h);
  }

  // ----- the output -----

  function RawOutput(v: Tensor, probs: Tensor, mask: Tensor, s: Dims): (r: Tensor)
    requires Sensible(s) && Framed(v, s) && Contiguous(probs) && probs.n == Four(Window(s), s.t, s.h, 1)
    ensures Contiguous(r) && r.n == Four(s.d, Chunk(s), Groups(s), s.h)
  {
    MulMat(Cont(ValueView(v, s)), Weights(probs, mask, s))
  }

  function Output(v: Tensor, probs: Tensor, mask: Tensor, s: Dims): Tensor
    requires Sensible(s) && Framed(v, s) && Contiguous(probs) && probs.n == Four(Window(s), s.t, s.h, 1)
  {
    Unpadded(Ungrouped(RawOutput(v, probs, mask, s)), s)
  }

  /** The values of the frames within half a window of the query, each times its probability. */
  function WindowSum(v: Tensor, probs: Tensor, s: Dims, d: nat, x: nat, h: nat): real
  {
    Sum(Window(s), (w: nat) => Product(Frame(v, s, d, x - s.w + w, h), At(probs, Four(w, x, h, 0))))
  }

  lemma RawOutputAt(v: Tensor, probs: Tensor, mask: Tensor, s: Dims, d: nat, r: nat, g: nat, h: nat)
    requires Sensible(s) && Framed(v, s) && Contiguous(probs) && probs.n == Four(Window(s), s.t, s.h, 1) && IsMask(mask, s)
    requires d < s.d && r < Chunk(s) && g < Groups(s) && h < s.h && Mul(g, Chunk(s)) + r < s.t
    ensures At(RawOutput(v, probs, mask, s), Four(d, r, g, h)) == WindowSum(v, probs, s, d, Mul(g, Chunk(s)) + r, h)
  {
    hide *;
    var vc, ws, x := Cont(ValueView(v, s)), Weights(probs, mask, s), Mul(g, Chunk(s)) + r;
    RawOutputElement(v, probs, mask, s, d, r, g, h);
    forall k: nat | k < KvChunk(s)
      ensures Product(At(vc, Four(k, d, g, h)), At(ws, Four(k, r, g, h))) == InWindow(v, probs, s, d, x, h, r, k)
    {
      TermAt(v, probs, mask, s, d, r, g, h, k);
    }
    SumEqual(KvChunk(s), (k: nat) => Product(At(vc, Four(k, d, g, h)), At(ws, Four(k, r, g, h))), (k: nat) => InWindow(v, probs, s, d, x, h, r, k));
    InWindowSum(v, probs, s, d, x, h, r);
  }

  lemma RawOutputElement(v: Tensor, probs: Tensor, mask: Tensor, s: Dims, d: nat, r: nat, g: nat, h: nat)
    requires Sensible(s) && Framed(v, s) && Contiguous(probs) && probs.n == Four(Window(s), s.t, s.h, 1)
    requires d < s.d && r < Chunk(s) && g < Groups(s) && h < s.h
    ensures At(RawOutput(v, probs, mask, s), Four(d, r, g, h)) ==
      Sum(KvChunk(s), (k: nat) => Product(At(Cont(ValueView(v, s)), Four(k, d, g, h)), At(Weights(probs, mask, s), Four(k, r, g, h))))
  {
    hide At, Groups, Mul, Contiguous, Weights, ValueSource, Sum;
    MulMatAt(Cont(ValueView(v, s)), Weights(probs, mask, s), Four(d, r, g, h));
  }

  /** The term of key `k` of the chunk for the query at position `r` in its group. */
  function InWindow(v: Tensor, probs: Tensor, s: Dims, d: nat, x: nat, h: nat, r: nat, k: nat): real
  {
    if r <= k < r + Window(s) then Product(Frame(v, s, d, x - s.w + (k - r), h), At(probs, Four(k - r, x, h, 0))) else 0.0
  }

  lemma InWindowSum(v: Tensor, probs: Tensor, s: Dims, d: nat, x: nat, h: nat, r: nat)
    requires r < Chunk(s)
    ensures Sum(KvChunk(s), (k: nat) => InWindow(v, probs, s, d, x, h, r, k)) == WindowSum(v, probs, s, d, x, h)
  {
    hide At, Frame, Product, Sum;
    var f := (k: nat) => InWindow(v, probs, s, d, x, h, r, k);
    var e := (w: nat) => Product(Frame(v, s, d, x - s.w + w, h), At(probs, Four(w, x, h, 0)));
    SumWindow(KvChunk(s), r, Window(s), f, e);
  }

  lemma TermAt(v: Tensor, probs: Tensor, mask: Tensor, s: Dims, d: nat, r: nat, g: nat, h: nat, k: nat)
    requires Sensible(s) && Framed(v, s) && Contiguous(probs) && probs.n == Four(Window(s), s.t, s.h, 1) && IsMask(mask, s)
    requires d < s.d && r < Chunk(s) && g < Groups(s) && h < s.h && Mul(g, Chunk(s)) + r < s.t && k < KvChunk(s)
    ensures var x := Mul(g, Chunk(s)) + r;
      Product(At(Cont(ValueView(v, s)), Four(k, d, g, h)), At(Weights(probs, mask, s), Four(k, r, g, h))) ==
      InWindow(v, probs, s, d, x, h, r, k)
  {
    hide At, Frame, Place, Groups, Mul, Contiguous, Product, Weights, ValueSource, IsMask;
    var vc := Cont(ValueView(v, s));
    ContAt(ValueView(v, s), Four(k, d, g, h));
    ValueViewAt(v, s, k, d, g, h);
    WeightAt(probs, mask, s, k, r, g, h);
    ProductOneZero(At(vc, Four(k, d, g, h)));
  }

  /** For every sequence length and half window: exactly the windowed sum. */
  lemma OutputAt(v: Tensor, probs: Tensor, mask: Tensor, s: Dims, d: nat, x: nat, h: nat)
    requires Sensible(s) && Framed(v, s) && Contiguous(probs) && probs.n == Four(Window(s), s.t, s.h, 1) && IsMask(mask, s)
    requires d < s.d && x < s.t && h < s.h
    ensures At(Output(v, probs, mask, s), Four(d, x, h, 0)) == WindowSum(v, probs, s, d, x, h)
  {
    hide *;
    var g, r := GroupOf(s, x);
    RawOutputAt(v, probs, mask, s, d, r, g, h);
    OutputPlace(v, probs, mask, s, d, r, g, h);
  }

  lemma OutputPlace(v: Tensor, probs: Tensor, mask: Tensor, s: Dims, d: nat, r: nat, g: nat, h: nat)
    requires Sensible(s) && Framed(v, s) && Contiguous(probs) && probs.n == Four(Window(s), s.t, s.h, 1)
    ensures At(Output(v, probs, mask, s), Four(d, Mul(g, Chunk(s)) + r, h, 0)) == At(RawOutput(v, probs, mask, s), Four(d, r, g, h))
  {
    hide At, Groups, Mul, Contiguous, Size, RawOutput;
    var raw := RawOutput(v, probs, mask, s);
    UnpaddedAt(Ungrouped(raw), s, Four(d, Mul(g, Chunk(s)) + r, h, 0));
    UngroupedAt(raw, Four(d, r, g, h));
  }

  /** The terms of the window, in plain numbers: value times probability, nothing outside the sequence. */
  ghost predicate WindowTerms(v: Tensor, probs: Tensor, s: Dims, d: nat, x: nat, h: nat, terms: seq<real>)
  {
    |terms| == s.w + s.w + 1 && forall w: nat {:trigger terms[w]} :: w < |terms| ==>
      terms[w] == (if 0 <= x - s.w + w < s.t then At(v, Four(d, x - s.w + w, h, 0)) else 0.0) * At(probs, Four(w, x, h, 0))
  }

  lemma WindowInFull(v: Tensor, probs: Tensor, s: Dims, d: nat, x: nat, h: nat, terms: seq<real>)
    requires WindowTerms(v, probs, s, d, x, h, terms)
    ensures WindowSum(v, probs, s, d, x, h) == Total(terms)
  {
    hide At, Total;
    SumIsTotal(Window(s), (w: nat) => Product(Frame(v, s, d, x - s.w + w, h), At(probs, Four(w, x, h, 0))), terms);
  }

  /** The output is the total of those terms. */
  lemma OutputInFull(v: Tensor, probs: Tensor, mask: Tensor, s: Dims, d: nat, x: nat, h: nat, terms: seq<real>)
    requires s.d > 0 && s.t > 0 && s.w > 0 && s.h > 0 && Framed(v, s) && Contiguous(probs) && probs.n == Four(Window(s), s.t, s.h, 1) && IsMask(mask, s)
    requires d < s.d && x < s.t && h < s.h && WindowTerms(v, probs, s, d, x, h, terms)
    ensures At(Output(v, probs, mask, s), Four(d, x, h, 0)) == Total(terms)
  {
    assert Sensible(s);
    hide *;
    OutputAt(v, probs, mask, s, d, x, h);
    WindowInFull(v, probs, s, d, x, h, terms);
  }
}
