/** Windowed attention from overlapping, skewed and padded views: the scores. */
module LocalAttention {
  import opened Bits
  import opened Tensors

  /** Sizes: head width, frames, half window, heads. */
  datatype Dims = Dims(d: nat, t: nat, w: nat, h: nat)

  predicate Sensible(s: Dims)
  {
    s.d > 0 && s.t > 0 && s.w > 0 && s.h > 0
  }

  function Chunk(s: Dims): nat
  {
    s.w + s.w
  }

  function Window(s: Dims): nat
  {
    s.w + s.w + 1
  }

  function Groups(s: Dims): (g: nat)
    requires Sensible(s)
    ensures g > 0 && Mul(g - 1, Chunk(s)) < s.t <= Mul(g, Chunk(s))
  {
    GroupsCover(s.t, Chunk(s));
    (s.t + Chunk(s) - 1) / Chunk(s)
  }

  lemma GroupsCover(t: nat, c: nat)
    requires t > 0 && c > 0
    ensures var g := (t + c - 1) / c; g > 0 && Mul(g - 1, c) < t <= Mul(g, c)
  {
    var g, r := QuotRem(t + c - 1, c);
    if g <= 0 {
      AtMostZero(g, c);
    }
    Distribute(g, 1, c);
  }

  lemma AtMostZero(g: int, c: nat)
    requires g <= 0
    ensures g * c <= 0
  {}

  /** Keys that one group's queries can see. */
  function KvChunk(s: Dims): nat
  {
    Chunk(s) + Window(s) - 1
  }

  function Frames(s: Dims): Four
  {
    Four(s.d, s.t, s.h, 1)
  }

  ghost predicate Framed(t: Tensor, s: Dims)
  {
    Contiguous(t) && t.n == Frames(s)
  }

  // ----- keys and values: padded, then seen in overlapping chunks -----

  /** Zeros for half a window on both sides, and up to the total of the chunks. */
  function PadKeys(k: Tensor, s: Dims): (p: Tensor)
    requires Sensible(s)
    ensures Contiguous(p) && p.n.x0 == k.n.x0 && p.n.x2 == k.n.x2 && p.n.x3 == k.n.x3
    ensures p.n.x1 >= k.n.x1 + s.w + s.w && p.n.x1 >= Mul(KvChunk(s), Groups(s))
  {
    var p := Pad(k, 0, 0, s.w, s.w);
    if Mul(KvChunk(s), Groups(s)) > p.n.x1 then Pad(p, 0, 0, 0, Mul(KvChunk(s), Groups(s)) - p.n.x1) else p
  }

  /** Frame `f` of the sequence, zero outside it. */
  function Frame(k: Tensor, s: Dims, d: nat, f: int, h: nat): real
  {
    if 0 <= f < s.t then At(k, Four(d, f, h, 0)) else 0.0
  }

  lemma PadKeysAt(k: Tensor, s: Dims, d: nat, f: nat, h: nat)
    requires Sensible(s) && k.n == Frames(s) && d < s.d && h < s.h && f < PadKeys(k, s).n.x1
    ensures At(PadKeys(k, s), Four(d, f, h, 0)) == Frame(k, s, d, f - s.w, h)
  {
    hide At, Groups, Mul;
    var p := Pad(k, 0, 0, s.w, s.w);
    var i := Four(d, f, h, 0);
    if f < p.n.x1 {
      PadAt(k, 0, 0, s.w, s.w, i);
    }
    if Mul(KvChunk(s), Groups(s)) > p.n.x1 {
      PadAt(p, 0, 0, 0, Mul(KvChunk(s), Groups(s)) - p.n.x1, i);
    }
  }

  function KeyView(k: Tensor, s: Dims): Tensor
    requires Sensible(s)
  {
    var p := PadKeys(k, s);
    View(p, Four(s.d, KvChunk(s), Groups(s), s.h), p.b.x1, Mul(Chunk(s), p.b.x1), p.b.x2, 0)
  }

  lemma ChunkReach(s: Dims, j: nat, g: nat)
    requires Sensible(s) && j < KvChunk(s) && g < Groups(s)
    ensures Mul(g, Chunk(s)) + j < Mul(KvChunk(s), Groups(s))
  {
    var c, v := Chunk(s), KvChunk(s);
    Below(j, v, g, Groups(s));
    Distribute(v, c, g);
    NonNegative(v - c, g);
  }

  lemma OverlapPlace(b1: nat, b2: nat, c: nat, i: Four)
    ensures Place(0, Four(1, b1, Mul(c, b1), b2), i) == Place(0, Four(1, b1, b2, 0), Four(i.x0, Mul(i.x2, c) + i.x1, i.x3, 0))
  {
    Distribute(Mul(i.x2, c), i.x1, b1);
    Associate(i.x2, c, b1);
  }

  lemma StrideIrrelevant(b: Four, c: nat, i: Four)
    requires i.x3 == 0
    ensures Place(0, b, i) == Place(0, b.(x3 := c), i)
  {
    ZeroTimes(b.x3);
    ZeroTimes(c);
  }

  /** Chunk `g` starts `g` times the chunk length further along, so neighbours share keys in memory. */
  lemma KeyViewAt(k: Tensor, s: Dims, d: nat, j: nat, g: nat, h: nat)
    requires Sensible(s) && k.n == Frames(s) && d < s.d && j < KvChunk(s) && g < Groups(s) && h < s.h
    ensures At(KeyView(k, s), Four(d, j, g, h)) == Frame(k, s, d, Mul(g, Chunk(s)) + j - s.w, h)
    ensures Place(KeyView(k, s).off, KeyView(k, s).b, Four(d, j, g, h)) < |KeyView(k, s).mem|
  {
    var p := PadKeys(k, s);
    var f := Mul(g, Chunk(s)) + j;
    ChunkReach(s, j, g);
    assert Inside(p.n, Four(d, f, h, 0));
    PadKeysAt(k, s, d, f, h);
    PlaceBelowSize(p.n, Four(d, f, h, 0));
    OverlapPlace(p.b.x1, p.b.x2, Chunk(s), Four(d, j, g, h));
    StrideIrrelevant(p.b, 0, Four(d, f, h, 0));
    hide Mul, Groups, PadKeys, Place, Frame, Size;
  }

  lemma KeyViewInBounds(k: Tensor, s: Dims)
    requires Sensible(s) && k.n == Frames(s)
    ensures InBounds(KeyView(k, s))
  {
    hide At, Frame, Place;
    forall i | Inside(KeyView(k, s).n, i) ensures Place(KeyView(k, s).off, KeyView(k, s).b, i) < |KeyView(k, s).mem| {
      KeyViewAt(k, s, i.x0, i.x1, i.x2, i.x3);
    }
  }

  // ----- queries in groups -----

  /** Frames padded to whole groups. */
  function PadFrames(t: Tensor, s: Dims): (p: Tensor)
    requires Sensible(s) && Contiguous(t) && t.n.x1 == s.t
    ensures Contiguous(p) && p.n == t.n.(x1 := Mul(Groups(s), Chunk(s)))
  {
    if Mul(Groups(s), Chunk(s)) > s.t then Pad(t, 0, 0, 0, Mul(Groups(s), Chunk(s)) - s.t) else t
  }

  lemma PadFramesAt(t: Tensor, s: Dims, x: nat, q: nat, h: nat)
    requires Sensible(s) && Contiguous(t) && t.n.x1 == s.t && t.n.x3 == 1
    requires x < t.n.x0 && q < Mul(Groups(s), Chunk(s)) && h < t.n.x2
    ensures At(PadFrames(t, s), Four(x, q, h, 0)) == if q < s.t then At(t, Four(x, q, h, 0)) else 0.0
  {
    hide At, Groups, Mul, Contiguous;
    if Mul(Groups(s), Chunk(s)) > s.t {
      PadAt(t, 0, 0, 0, Mul(Groups(s), Chunk(s)) - s.t, Four(x, q, h, 0));
    }
  }

  /** Frames as (position in group, group), and back: the same memory. */
  lemma GroupSizes(a: nat, c: nat, g: nat, h: nat)
    ensures Size(Four(a, c, g, h)) == Size(Four(a, Mul(g, c), h, 1))
  {
    Associate(a, c, g);
  }

  lemma GroupPlace(a: nat, c: nat, g: nat, h: nat, i: Four)
    ensures Place(0, Strides(Four(a, c, g, h)), i) ==
      Place(0, Strides(Four(a, Mul(g, c), h, 1)), Four(i.x0, Mul(i.x2, c) + i.x1, i.x3, 0))
  {
    Distribute(Mul(i.x2, c), i.x1, a);
    Associate(i.x2, c, a);
    Associate(a, c, g);
    ZeroTimes(Mul(Mul(a, Mul(g, c)), h));
  }

  function Grouped(t: Tensor, c: nat, g: nat): (r: Tensor)
    requires Contiguous(t) && t.n.x1 == Mul(g, c) && t.n.x3 == 1
    ensures Contiguous(r) && r.n == Four(t.n.x0, c, g, t.n.x2)
  {
    GroupSizes(t.n.x0, c, g, t.n.x2);
    Reshape(t, Four(t.n.x0, c, g, t.n.x2))
  }

  lemma GroupedAt(t: Tensor, c: nat, g: nat, i: Four)
    requires Contiguous(t) && t.n.x1 == Mul(g, c) && t.n.x3 == 1
    ensures At(Grouped(t, c, g), i) == At(t, Four(i.x0, Mul(i.x2, c) + i.x1, i.x3, 0))
  {
    GroupPlace(t.n.x0, c, g, t.n.x2, i);
    hide Place, Strides, Mul, Size;
  }

  function Ungrouped(t: Tensor): (r: Tensor)
    requires Contiguous(t)
    ensures Contiguous(r) && r.n == Four(t.n.x0, Mul(t.n.x2, t.n.x1), t.n.x3, 1)
  {
    GroupSizes(t.n.x0, t.n.x1, t.n.x2, t.n.x3);
    Reshape(t, Four(t.n.x0, Mul(t.n.x2, t.n.x1), t.n.x3, 1))
  }

  lemma UngroupedAt(t: Tensor, i: Four)
    requires Contiguous(t)
    ensures At(Ungrouped(t), Four(i.x0, Mul(i.x2, t.n.x1) + i.x1, i.x3, 0)) == At(t, i)
  {
    GroupPlace(t.n.x0, t.n.x1, t.n.x2, t.n.x3, i);
    hide Place, Strides, Mul, Size;
  }

  /** The frames without the padding. */
  function Unpadded(t: Tensor, s: Dims): Tensor
    requires Sensible(s)
  {
    if Mul(Groups(s), Chunk(s)) > s.t then View(t, t.n.(x1 := s.t), t.b.x1, t.b.x2, t.b.x3, 0) else t
  }

  lemma UnpaddedAt(t: Tensor, s: Dims, i: Four)
    requires Sensible(s)
    ensures At(Unpadded(t, s), i) == At(t, i)
  {
    hide Place, Groups, Mul;
  }

  // ----- scores -----

  /** Queries by position in their group. */
  function QueryGroups(q: Tensor, s: Dims): (r: Tensor)
    requires Sensible(s) && Framed(q, s)
    ensures Contiguous(r) && r.n == Four(s.d, Chunk(s), Groups(s), s.h)
  {
    Grouped(PadFrames(q, s), Chunk(s), Groups(s))
  }

  function RawScores(k: Tensor, q: Tensor, s: Dims): (r: Tensor)
    requires Sensible(s) && Framed(k, s) && Framed(q, s)
    ensures Contiguous(r) && r.n == Four(KvChunk(s), Chunk(s), Groups(s), s.h)
  {
    MulMat(Cont(KeyView(k, s)), QueryGroups(q, s))
  }

  /** Rows one element longer than they are: each next query sees its keys from one further along. */
  function SkewView(raw: Tensor, s: Dims): Tensor
    requires Sensible(s)
  {
    View(raw, Four(Window(s), Chunk(s), Groups(s), s.h), Mul(Chunk(s) + Window(s), raw.b.x0), raw.b.x2, raw.b.x3, 0)
  }

  lemma SkewPlace(v: nat, b2: nat, b3: nat, w: nat, c: nat, g: nat, h: nat)
    ensures Place(0, Four(1, Mul(v + 1, 1), b2, b3), Four(w, c, g, h)) == Place(0, Four(1, v, b2, b3), Four(w + c, c, g, h))
  {
    Distribute(v, 1, c);
  }

  lemma SkewViewAt(raw: Tensor, s: Dims, w: nat, c: nat, g: nat, h: nat)
    requires Sensible(s) && Contiguous(raw) && raw.n == Four(KvChunk(s), Chunk(s), Groups(s), s.h)
    requires w < Window(s) && c < Chunk(s) && g < Groups(s) && h < s.h
    ensures At(SkewView(raw, s), Four(w, c, g, h)) == At(raw, Four(w + c, c, g, h))
    ensures Place(SkewView(raw, s).off, SkewView(raw, s).b, Four(w, c, g, h)) < |raw.mem|
  {
    SkewPlace(KvChunk(s), raw.b.x2, raw.b.x3, w, c, g, h);
    PlaceBelowSize(raw.n, Four(w + c, c, g, h));
    hide Place, Groups, Mul, Size;
    assert Chunk(s) + Window(s) == KvChunk(s) + 1;
  }

  lemma SkewViewInBounds(raw: Tensor, s: Dims)
    requires Sensible(s) && Contiguous(raw) && raw.n == Four(KvChunk(s), Chunk(s), Groups(s), s.h)
    ensures InBounds(SkewView(raw, s))
  {
    hide At, Place, Groups;
    forall i | Inside(SkewView(raw, s).n, i) ensures Place(SkewView(raw, s).off, SkewView(raw, s).b, i) < |SkewView(raw, s).mem| {
      SkewViewAt(raw, s, i.x0, i.x1, i.x2, i.x3);
    }
  }

  function ContentScores(k: Tensor, q: Tensor, s: Dims): (r: Tensor)
    requires Sensible(s) && Framed(k, s) && Framed(q, s)
  {
    Unpadded(Ungrouped(Cont(SkewView(RawScores(k, q, s), s))), s)
  }

  /** The inner product of a query with one frame's key. */
  function Affinity(k: Tensor, q: Tensor, s: Dims, f: int, x: nat, h: nat): real
  {
    Sum(s.d, (d: nat) => Product(Frame(k, s, d, f, h), At(q, Four(d, x, h, 0))))
  }

  lemma RawScoreAt(k: Tensor, q: Tensor, s: Dims, j: nat, c: nat, g: nat, h: nat)
    requires Sensible(s) && Framed(k, s) && Framed(q, s)
    requires j < KvChunk(s) && c < Chunk(s) && g < Groups(s) && h < s.h && Mul(g, Chunk(s)) + c < s.t
    ensures At(RawScores(k, q, s), Four(j, c, g, h)) == Affinity(k, q, s, Mul(g, Chunk(s)) + j - s.w, Mul(g, Chunk(s)) + c, h)
  {
    hide *;
    var kc, qg := Cont(KeyView(k, s)), QueryGroups(q, s);
    var f, x := Mul(g, Chunk(s)) + j - s.w, Mul(g, Chunk(s)) + c;
    RawScoreElement(k, q, s, j, c, g, h);
    AffinityTerms(k, q, s, f, x, h);
    forall d: nat | d < s.d
      ensures Product(At(kc, Four(d, j, g, h)), At(qg, Four(d, c, g, h))) == Product(Frame(k, s, d, f, h), At(q, Four(d, x, h, 0)))
    {
      FactorsAt(k, q, s, d, j, c, g, h);
    }
    SumEqual(s.d, (d: nat) => Product(At(kc, Four(d, j, g, h)), At(qg, Four(d, c, g, h))),
      (d: nat) => Product(Frame(k, s, d, f, h), At(q, Four(d, x, h, 0))));
  }

  lemma RawScoreElement(k: Tensor, q: Tensor, s: Dims, j: nat, c: nat, g: nat, h: nat)
    requires Sensible(s) && Framed(k, s) && Framed(q, s) && j < KvChunk(s) && c < Chunk(s) && g < Groups(s) && h < s.h
    ensures At(RawScores(k, q, s), Four(j, c, g, h)) ==
      Sum(s.d, (d: nat) => Product(At(Cont(KeyView(k, s)), Four(d, j, g, h)),
        At(QueryGroups(q, s), Four(d, c, g, h))))
  {
    hide At, Groups, Mul, Contiguous, QueryGroups, PadKeys, Sum;
    MulMatAt(Cont(KeyView(k, s)), QueryGroups(q, s), Four(j, c, g, h));
  }

  lemma AffinityTerms(k: Tensor, q: Tensor, s: Dims, f: int, x: nat, h: nat)
    ensures Affinity(k, q, s, f, x, h) == Sum(s.d, (d: nat) => Product(Frame(k, s, d, f, h), At(q, Four(d, x, h, 0))))
  {}

  lemma FactorsAt(k: Tensor, q: Tensor, s: Dims, d: nat, j: nat, c: nat, g: nat, h: nat)
    requires Sensible(s) && Framed(k, s) && Framed(q, s) && d < s.d
    requires j < KvChunk(s) && c < Chunk(s) && g < Groups(s) && h < s.h && Mul(g, Chunk(s)) + c < s.t
    ensures At(Cont(KeyView(k, s)), Four(d, j, g, h)) == Frame(k, s, d, Mul(g, Chunk(s)) + j - s.w, h)
    ensures At(QueryGroups(q, s), Four(d, c, g, h)) == At(q, Four(d, Mul(g, Chunk(s)) + c, h, 0))
  {
    hide At, Frame, Place, Groups, Mul, Contiguous, Product, Grouped, PadFrames, PadKeys;
    ContAt(KeyView(k, s), Four(d, j, g, h));
    KeyViewAt(k, s, d, j, g, h);
    GroupedAt(PadFrames(q, s), Chunk(s), Groups(s), Four(d, c, g, h));
    PadFramesAt(q, s, d, Mul(g, Chunk(s)) + c, h);
  }

  /** Score `w` of query `x` is that of the key half a window before the query plus `w`, zero outside the sequence. */
  lemma ContentScoreAt(k: Tensor, q: Tensor, s: Dims, w: nat, x: nat, h: nat)
    requires s.d > 0 && s.t > 0 && s.w > 0 && s.h > 0 && Framed(k, s) && Framed(q, s) && w < Window(s) && x < s.t && h < s.h
    ensures At(ContentScores(k, q, s), Four(w, x, h, 0)) == Affinity(k, q, s, x - s.w + w, x, h)
  {
    assert Sensible(s);
    hide *;
    var g, c := GroupOf(s, x);
    ContentPlace(k, q, s, w, c, g, h);
    RawScoreAt(k, q, s, w + c, c, g, h);
  }

  /** The score of slot `w` of the query at position `c` of a group is the one `w` keys further along. */
  lemma ContentPlace(k: Tensor, q: Tensor, s: Dims, w: nat, c: nat, g: nat, h: nat)
    requires Sensible(s) && Framed(k, s) && Framed(q, s) && w < Window(s) && c < Chunk(s) && g < Groups(s) && h < s.h
    ensures w + c < KvChunk(s)
    ensures At(ContentScores(k, q, s), Four(w, Mul(g, Chunk(s)) + c, h, 0)) == At(RawScores(k, q, s), Four(w + c, c, g, h))
  {
    hide At, Place, Groups, Mul, Contiguous, RawScores, Size;
    var raw := RawScores(k, q, s);
    var skewed := Cont(SkewView(raw, s));
    UnpaddedAt(Ungrouped(skewed), s, Four(w, Mul(g, Chunk(s)) + c, h, 0));
    UngroupedAt(skewed, Four(w, c, g, h));
    ContAt(SkewView(raw, s), Four(w, c, g, h));
    SkewViewAt(raw, s, w, c, g, h);
  }

  /** The group of a frame and its position there. */
  lemma GroupOf(s: Dims, x: nat) returns (g: nat, c: nat)
    requires Sensible(s) && x < s.t
    ensures g < Groups(s) && c < Chunk(s) && x == Mul(g, Chunk(s)) + c
  {
    var g', c' := QuotRem(x, Chunk(s));
    g, c := g', c';
    if g >= Groups(s) {
      Distribute(g, Groups(s), Chunk(s));
      NonNegative(g - Groups(s), Chunk(s));
    }
  }

  /** An affinity is the total of the products along the head's dimension, nothing outside the sequence. */
  lemma AffinityInFull(k: Tensor, q: Tensor, s: Dims, f: int, x: nat, h: nat, terms: seq<real>)
    requires |terms| == s.d && forall d: nat {:trigger terms[d]} :: d < s.d ==>
      terms[d] == (if 0 <= f < s.t then At(k, Four(d, f, h, 0)) else 0.0) * At(q, Four(d, x, h, 0))
    ensures Affinity(k, q, s, f, x, h) == Total(terms)
  {
    hide At, Total;
    SumIsTotal(s.d, (d: nat) => Product(Frame(k, s, d, f, h), At(q, Four(d, x, h, 0))), terms);
  }
}
