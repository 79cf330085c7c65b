/** Masks and relative positions of attention, and the shift that lines positions up with keys in the full path. */
module AttentionPositions {
  import opened Bits
  import opened Tensors
  import opened LocalAttention
  import opened AttentionOutput

  const LOCAL_WINDOW: nat := 128
  const MASKED: real := -1000000000000000000000000000000.0

  // ----- filling the inputs -----

  /** Row `q`, column `k` of a matrix with `n` columns. */
  function Cell(q: nat, k: nat, n: nat): nat
  {
    Mul(q, n) + k
  }

  lemma CellUnique(q: nat, k: nat, q': nat, k': nat, n: nat)
    requires k < n && k' < n && Cell(q, k, n) == Cell(q', k', n)
    ensures q == q' && k == k'
  {
    Step(k, n, q);
    Step(k', n, q');
  }

  lemma CellBelow(q: nat, k: nat, rows: nat, n: nat)
    requires q < rows && k < n
    ensures Cell(q, k, n) < Mul(rows, n)
  {
    Below(k, n, q, rows);
  }

  /** The value stored for a cell, under either mask. */
  function AttnMaskValue(nq: nat, nk: nat, real_: int, q: nat, k: nat): real
  {
    if nk == nq then if k >= real_ then MASKED else 0.0
    else
      var key := q - nk / 2 + k;
      if 0 <= key < real_ then 0.0 else MASKED
  }

  ghost predicate Holds(data: seq<real>, nk: nat, f: (nat, nat) -> real, q: nat, k: nat)
  {
    Cell(q, k, nk) < |data| && data[Cell(q, k, nk)] == f(q, k)
  }

  /** The first `rows` rows, and `columns` cells of the next, hold the values of `f`. */
  ghost predicate Filled(data: seq<real>, nq: nat, nk: nat, f: (nat, nat) -> real, rows: nat, columns: nat)
  {
    |data| == Mul(nq, nk) && forall q: nat, k: nat {:trigger Holds(data, nk, f, q, k)} ::
      q < nq && k < nk && (q < rows || (q == rows && k < columns)) ==> Holds(data, nk, f, q, k)
  }

  lemma FillNext(data: seq<real>, nq: nat, nk: nat, f: (nat, nat) -> real, q: nat, k: nat)
    requires q < nq && k < nk && Filled(data, nq, nk, f, q, k)
    ensures Cell(q, k, nk) < |data| && Filled(data[Cell(q, k, nk) := f(q, k)], nq, nk, f, q, k + 1)
  {
    CellBelow(q, k, nq, nk);
    hide Mul, Cell, Holds;
    var data' := data[Cell(q, k, nk) := f(q, k)];
    forall q': nat, k': nat | q' < nq && k' < nk && (q' < q || (q' == q && k' < k + 1))
      ensures Holds(data', nk, f, q', k')
    {
      if q' == q && k' == k {
        HoldsNow(data, nk, f, q, k);
      } else {
        HoldsStill(data, nk, f, q', k', q, k);
      }
    }
  }

  lemma HoldsNow(data: seq<real>, nk: nat, f: (nat, nat) -> real, q: nat, k: nat)
    requires Cell(q, k, nk) < |data|
    ensures Holds(data[Cell(q, k, nk) := f(q, k)], nk, f, q, k)
  {}

  lemma HoldsStill(data: seq<real>, nk: nat, f: (nat, nat) -> real, q': nat, k': nat, q: nat, k: nat)
    requires k < nk && k' < nk && (q' != q || k' != k) && Holds(data, nk, f, q', k') && Cell(q, k, nk) < |data|
    ensures Holds(data[Cell(q, k, nk) := f(q, k)], nk, f, q', k')
  {
    if Cell(q', k', nk) == Cell(q, k, nk) {
      CellUnique(q', k', q, k, nk);
    }
    hide Mul, Cell;
  }

  lemma FillRow(data: seq<real>, nq: nat, nk: nat, f: (nat, nat) -> real, q: nat)
    requires Filled(data, nq, nk, f, q, nk)
    ensures Filled(data, nq, nk, f, q + 1, 0)
  {
    hide Mul, Cell, Holds;
  }

  method FillAttnMask(data: array<real>, nq: nat, nk: nat, tokensReal: int)
    requires data.Length == Mul(nq, nk)
    modifies data
    ensures Filled(data[..], nq, nk, (q: nat, k: nat) => AttnMaskValue(nq, nk, tokensReal, q, k), nq, 0)
  {
    ghost var f := (q: nat, k: nat) => AttnMaskValue(nq, nk, tokensReal, q, k);
    for q: nat := 0 to nq
      invariant Filled(data[..], nq, nk, f, q, 0)
    {
      hide Mul, Cell, Filled;
      for k: nat := 0 to nk
        invariant Filled(data[..], nq, nk, f, q, k)
      {
        ghost var before := data[..];
        FillNext(before, nq, nk, f, q, k);
        if nk == nq {
          data[Cell(q, k, nk)] := if k >= tokensReal then MASKED else 0.0;
        } else {
          var attLeft := nk / 2;
          var key := q - attLeft + k;
          data[Cell(q, k, nk)] := if 0 <= key < tokensReal then 0.0 else MASKED;
        }
        assert data[..] == before[Cell(q, k, nk) := f(q, k)];
      }
      FillRow(data[..], nq, nk, f, q);
    }
  }

  method FillLocalMask(data: array<real>, s: Dims)
    requires Sensible(s) && data.Length == Mul(Chunk(s), KvChunk(s))
    modifies data
    ensures IsMask(Tensor(data[..], 0, Four(KvChunk(s), Chunk(s), 1, 1), Strides(Four(KvChunk(s), Chunk(s), 1, 1))), s)
  {
    var nk, nq := KvChunk(s), Chunk(s);
    var windowSize := nk - nq + 1;
    ghost var f := (q: nat, k: nat) => MaskValue(s, k, q);
    for q: nat := 0 to nq
      invariant Filled(data[..], nq, nk, f, q, 0)
    {
      hide Mul, Cell, Filled;
      for k: nat := 0 to nk
        invariant Filled(data[..], nq, nk, f, q, k)
      {
        ghost var before := data[..];
        FillNext(before, nq, nk, f, q, k);
        var rel := k - q;
        data[Cell(q, k, nk)] := if 0 <= rel < windowSize then 1.0 else 0.0;
        assert data[..] == before[Cell(q, k, nk) := f(q, k)];
      }
      FillRow(data[..], nq, nk, f, q);
    }
    FilledIsMask(data[..], s, f);
  }

  lemma FilledIsMask(data: seq<real>, s: Dims, f: (nat, nat) -> real)
    requires Filled(data, Chunk(s), KvChunk(s), f, Chunk(s), 0)
    requires forall q: nat, k: nat {:trigger f(q, k)} :: f(q, k) == MaskValue(s, k, q)
    ensures IsMask(Tensor(data, 0, Four(KvChunk(s), Chunk(s), 1, 1), Strides(Four(KvChunk(s), Chunk(s), 1, 1))), s)
  {
    var n := Four(KvChunk(s), Chunk(s), 1, 1);
    forall k: nat, r: nat {:trigger MaskValue(s, k, r)} | k < KvChunk(s) && r < Chunk(s)
      ensures At(Tensor(data, 0, n, Strides(n)), Four(k, r, 0, 0)) == MaskValue(s, k, r)
    {
      assert f(r, k) == MaskValue(s, k, r);
      assert Holds(data, KvChunk(s), f, r, k);
      FlatPlace(n, k, r);
    }
  }

  lemma FlatPlace(n: Four, k: nat, r: nat)
    ensures Place(0, Strides(n), Four(k, r, 0, 0)) == Cell(r, k, n.x0)
  {
    ZeroTimes(Mul(n.x0, n.x1));
    ZeroTimes(Mul(Mul(n.x0, n.x1), n.x2));
  }

  /** Positions count down through zero at the middle of an odd window, in either branch. */
  method FillPositions(pos: array<real>)
    requires pos.Length % 2 == 1
    modifies pos
    ensures forall t {:trigger pos[t]} :: 0 <= t < pos.Length ==> pos[t] == (pos.Length / 2 - t) as real
  {
    var windowSize := pos.Length;
    if windowSize == LOCAL_WINDOW * 2 + 1 {
      for t := 0 to windowSize
        invariant forall u {:trigger pos[u]} :: 0 <= u < t ==> pos[u] == (windowSize / 2 - u) as real
      {
        pos[t] := (LOCAL_WINDOW - t) as real;
      }
    } else {
      var nTime := (windowSize + 1) / 2;
      for t := 0 to windowSize
        invariant forall u {:trigger pos[u]} :: 0 <= u < t ==> pos[u] == (windowSize / 2 - u) as real
      {
        pos[t] := (nTime - 1 - t) as real;
      }
    }
  }

  // ----- the local path -----

  /** The position score of slot `w`: the slot's embedding against the query. */
  function PositionScore(pos: Tensor, q: Tensor, w: nat, x: nat, h: nat): real
  {
    MulMatElement(pos, q, Four(w, x, h, 0))
  }

  function LocalScores(k: Tensor, qu: Tensor, qv: Tensor, pos: Tensor, s: Dims): (r: Tensor)
    requires Sensible(s) && Framed(k, s) && Framed(qu, s) && Framed(qv, s) && pos.n == Four(s.d, Window(s), s.h, 1)
  {
    AddTensors(ContentScores(k, qu, s), MulMat(pos, qv))
  }

  lemma ContentShape(k: Tensor, q: Tensor, s: Dims)
    requires Sensible(s) && Framed(k, s) && Framed(q, s)
    ensures ContentScores(k, q, s).n == Four(Window(s), s.t, s.h, 1)
  {
    hide At, RawScores, Size, Place;
  }

  /** Slot `w` of query `x` scores the key at `x - half + w`, with the embedding of the position query minus key. */
  lemma LocalScoreAt(k: Tensor, qu: Tensor, qv: Tensor, pos: Tensor, s: Dims, positions: seq<real>, w: nat, x: nat, h: nat)
    requires Sensible(s) && Framed(k, s) && Framed(qu, s) && Framed(qv, s) && pos.n == Four(s.d, Window(s), s.h, 1)
    requires w < Window(s) && x < s.t && h < s.h
    requires |positions| == Window(s) && forall t {:trigger positions[t]} :: 0 <= t < |positions| ==> positions[t] == (|positions| / 2 - t) as real
    ensures var key := x - s.w + w;
      && At(LocalScores(k, qu, qv, pos, s), Four(w, x, h, 0)) == Affinity(k, qu, s, key, x, h) + PositionScore(pos, qv, w, x, h)
      && positions[w] == (x - key) as real
  {
    LocalSum(k, qu, qv, pos, s, w, x, h);
    PositionPart(pos, qv, s, w, x, h);
    assert (Window(s) / 2) as int == s.w;
    hide *;
    ContentScoreAt(k, qu, s, w, x, h);
  }

  lemma LocalSum(k: Tensor, qu: Tensor, qv: Tensor, pos: Tensor, s: Dims, w: nat, x: nat, h: nat)
    requires Sensible(s) && Framed(k, s) && Framed(qu, s) && Framed(qv, s) && pos.n == Four(s.d, Window(s), s.h, 1)
    requires w < Window(s) && x < s.t && h < s.h
    ensures At(LocalScores(k, qu, qv, pos, s), Four(w, x, h, 0)) ==
      At(ContentScores(k, qu, s), Four(w, x, h, 0)) + At(MulMat(pos, qv), Four(w, x, h, 0))
  {
    ContentShape(k, qu, s);
    hide At, ContentScores, Contiguous, MulMat;
    AddAt(ContentScores(k, qu, s), MulMat(pos, qv), Four(w, x, h, 0));
  }

  lemma PositionPart(pos: Tensor, q: Tensor, s: Dims, w: nat, x: nat, h: nat)
    requires pos.n == Four(s.d, Window(s), s.h, 1) && q.n == Frames(s) && w < Window(s) && x < s.t && h < s.h
    ensures At(MulMat(pos, q), Four(w, x, h, 0)) == PositionScore(pos, q, w, x, h)
  {
    hide At, MulMatElement;
    MulMatAt(pos, q, Four(w, x, h, 0));
  }

  // ----- the mask over the scores -----

  /** The frame that slot `w` of query `x` scores is one of the real sequence. */
  predicate RealKey(s: Dims, tokensReal: int, x: nat, w: nat)
  {
    0 <= x - s.w + w < tokensReal
  }

  /** The mask of the local path lets through exactly the slots of real frames, unless the window is as long as the sequence. */
  ghost predicate MaskRight(s: Dims, tokensReal: int)
  {
    forall x: nat, w: nat {:trigger RealKey(s, tokensReal, x, w)} :: x < s.t && w < Window(s) ==>
      (AttnMaskValue(s.t, Window(s), tokensReal, x, w) == 0.0 <==> RealKey(s, tokensReal, x, w))
  }

  /** The branch goes by the shape alone: at that one length it takes slots for keys, and lets a frame before the first through. */
  lemma LocalMaskRight(s: Dims, tokensReal: int)
    requires Sensible(s)
    ensures MaskRight(s, tokensReal) <==> s.t != Window(s) || tokensReal <= 0
  {
    if s.t == Window(s) && tokensReal > 0 {
      assert !RealKey(s, tokensReal, 0, 0) && AttnMaskValue(s.t, Window(s), tokensReal, 0, 0) == 0.0;
    }
  }

  /** The threshold of the local path keeps clear of that length. */
  lemma LocalPathMask(s: Dims, tokensReal: int, x: nat, w: nat)
    requires s.w == 128 && s.t > 8192 && x < s.t && w < Window(s)
    ensures AttnMaskValue(s.t, Window(s), tokensReal, x, w) == if 0 <= x - s.w + w < tokensReal then 0.0 else MASKED
  {
    assert Window(s) / 2 == s.w;
  }

  /** Scores times a factor, plus a matrix repeated for every head. */
  function MaskedScores(scores: Tensor, scale: real, mask: Tensor): (r: Tensor)
    ensures Contiguous(r) && r.n == scores.n
  {
    Build(scores.n, (i: Four) => Product(scale, At(scores, i)) + At(mask, Four(i.x0, i.x1, 0, 0)))
  }

  lemma MaskedScoresAt(scores: Tensor, scale: real, mask: Tensor, w: nat, x: nat, h: nat)
    requires w < scores.n.x0 && x < scores.n.x1 && h < scores.n.x2 && scores.n.x3 == 1
    ensures At(MaskedScores(scores, scale, mask), Four(w, x, h, 0)) ==
      Product(scale, At(scores, Four(w, x, h, 0))) + At(mask, Four(w, x, 0, 0))
  {
    hide At, Product;
    BuildAt(scores.n, (j: Four) => Product(scale, At(scores, j)) + At(mask, Four(j.x0, j.x1, 0, 0)), Four(w, x, h, 0));
  }

  function MaskTensor(data: seq<real>, nq: nat, nk: nat): Tensor
  {
    Tensor(data, 0, Four(nk, nq, 1, 1), Strides(Four(nk, nq, 1, 1)))
  }

  lemma FilledMaskAt(data: seq<real>, nq: nat, nk: nat, f: (nat, nat) -> real, q: nat, k: nat)
    requires Filled(data, nq, nk, f, nq, 0) && q < nq && k < nk
    ensures At(MaskTensor(data, nq, nk), Four(k, q, 0, 0)) == f(q, k)
  {
    assert Holds(data, nk, f, q, k);
    FlatPlace(Four(nk, nq, 1, 1), k, q);
    hide Mul, Cell, Strides;
  }

  /** A masked score lies below every score that is let through, as long as these do not differ by 10^30. */
  lemma MaskedLies(a: real, b: real)
    requires a - b < 1000000000000000000000000000000.0
    ensures a + MASKED < b + 0.0
  {}

  /** With the mask on, the slots of the local path hold the scores of real frames within the window, and all others are masked. */
  lemma LocalMaskedAt(
    k: Tensor, qu: Tensor, qv: Tensor, pos: Tensor, s: Dims, positions: seq<real>, scale: real,
    data: seq<real>, tokensReal: int, f: (nat, nat) -> real, w: nat, x: nat, h: nat)
    requires Sensible(s) && Framed(k, s) && Framed(qu, s) && Framed(qv, s) && pos.n == Four(s.d, Window(s), s.h, 1)
    requires w < Window(s) && x < s.t && h < s.h && s.w == 128 && s.t > 8192
    requires |positions| == Window(s) && forall t {:trigger positions[t]} :: 0 <= t < |positions| ==> positions[t] == (|positions| / 2 - t) as real
    requires Filled(data, s.t, Window(s), f, s.t, 0)
    requires forall q: nat, j: nat {:trigger f(q, j)} :: f(q, j) == AttnMaskValue(s.t, Window(s), tokensReal, q, j)
    ensures var key := x - s.w + w;
      && positions[w] == (x - key) as real
      && At(MaskedScores(LocalScores(k, qu, qv, pos, s), scale, MaskTensor(data, s.t, Window(s))), Four(w, x, h, 0)) ==
        Product(scale, Affinity(k, qu, s, key, x, h) + PositionScore(pos, qv, w, x, h)) + (if 0 <= key < tokensReal then 0.0 else MASKED)
  {
    hide *;
    LocalScoreAt(k, qu, qv, pos, s, positions, w, x, h);
    LocalShape(k, qu, qv, pos, s);
    FilledMaskAt(data, s.t, Window(s), f, x, w);
    LocalPathMask(s, tokensReal, x, w);
    assert f(x, w) == AttnMaskValue(s.t, Window(s), tokensReal, x, w);
    MaskedScoresAt(LocalScores(k, qu, qv, pos, s), scale, MaskTensor(data, s.t, Window(s)), w, x, h);
  }

  /** In the full path key `k` is masked for every query exactly when it lies past the real sequence. */
  lemma FullMaskedAt(
    scores: Tensor, scale: real, data: seq<real>, t: nat, tokensReal: int, f: (nat, nat) -> real, k: nat, x: nat, h: nat)
    requires scores.n.x0 == scores.n.x1 == t && k < t && x < t && h < scores.n.x2 && scores.n.x3 == 1
    requires Filled(data, t, t, f, t, 0)
    requires forall q: nat, j: nat {:trigger f(q, j)} :: f(q, j) == AttnMaskValue(t, t, tokensReal, q, j)
    ensures At(MaskedScores(scores, scale, MaskTensor(data, t, t)), Four(k, x, h, 0)) ==
      Product(scale, At(scores, Four(k, x, h, 0))) + (if k < tokensReal then 0.0 else MASKED)
  {
    FilledMaskAt(data, t, t, f, x, k);
    hide At, Filled, Product, MaskTensor;
    MaskedScoresAt(scores, scale, MaskTensor(data, t, t), k, x, h);
  }

  lemma LocalShape(k: Tensor, qu: Tensor, qv: Tensor, pos: Tensor, s: Dims)
    requires Sensible(s) && Framed(k, s) && Framed(qu, s) && Framed(qv, s) && pos.n == Four(s.d, Window(s), s.h, 1)
    ensures LocalScores(k, qu, qv, pos, s).n == Four(Window(s), s.t, s.h, 1)
  {
    ContentShape(k, qu, s);
  }

  // ----- the full path -----

  /** Position scores of `2 t - 1` slots per query, padded by one and rolled, seen as rows of `t`. */
  function Rolled(rel: Tensor, t: nat): (r: Tensor)
    requires t > 0 && rel.n.x0 == 2 * t - 1
    ensures Contiguous(r) && r.n == Four(2 * t, rel.n.x1, rel.n.x2, rel.n.x3)
  {
    RollOne(Pad(rel, 0, 1, 0, 0))
  }

  lemma SwapSizes(t: nat, h: nat)
    ensures Size(Four(t, 2 * t, h, 1)) == Size(Four(2 * t, t, h, 1))
    ensures Mul(t, 2 * t) == Mul(2 * t, t)
  {
    Associate(t, 2, t);
  }

  function Narrow(rel: Tensor, t: nat): (r: Tensor)
    requires t > 0 && rel.n.x0 == 2 * t - 1 && rel.n.x1 == t && rel.n.x3 == 1
  {
    SwapSizes(t, rel.n.x2);
    Reshape(Rolled(rel, t), Four(t, 2 * t, rel.n.x2, 1))
  }

  /** The rows that start just past the middle, each one slot shorter than it is. */
  function ShiftView(rel: Tensor, t: nat): Tensor
    requires t > 0 && rel.n.x0 == 2 * t - 1 && rel.n.x1 == t && rel.n.x3 == 1
  {
    var r := Narrow(rel, t);
    View(r, Four(t, 2 * t - 1, rel.n.x2, 1), 2 * t - 1, r.b.x2, 0, Mul(r.b.x0, (2 * t - 1) / 2 + 1))
  }

  /** Of these, as many as there are queries. */
  function Shifted(rel: Tensor, t: nat): Tensor
    requires t > 0 && rel.n.x0 == 2 * t - 1 && rel.n.x1 == t && rel.n.x3 == 1
  {
    var r := ShiftView(rel, t);
    View(r, Four(t, t, rel.n.x2, 1), r.b.x1, r.b.x2, 0, 0)
  }

  lemma ShiftPlace(t: nat, k: nat, q: nat, h: nat, b2: nat, b3: nat)
    requires t > 0 && q < t
    ensures Place(Mul(1, (2 * t - 1) / 2 + 1), Four(1, 2 * t - 1, b2, 0), Four(k, q, h, 0)) ==
      Place(0, Four(1, 2 * t, b2, b3), Four(t + k - q, q, h, 0))
  {
    Distribute(2 * t, 1, q);
    ZeroTimes(b3);
    assert (2 * t - 1) / 2 + 1 == t;
  }

  /** The position score added for a query and a key is that of slot `t - 1 + key - query`. */
  lemma ShiftedAt(rel: Tensor, t: nat, k: nat, q: nat, h: nat)
    requires t > 0 && rel.n == Four(2 * t - 1, t, rel.n.x2, 1) && k < t && q < t && h < rel.n.x2
    ensures At(Shifted(rel, t), Four(k, q, h, 0)) == At(rel, Four(t - 1 + k - q, q, h, 0))
    ensures Place(Shifted(rel, t).off, Shifted(rel, t).b, Four(k, q, h, 0)) < |Shifted(rel, t).mem|
  {
    var r := Rolled(rel, t);
    var i := Four(t + k - q, q, h, 0);
    SwapSizes(t, rel.n.x2);
    ShiftPlace(t, k, q, h, r.b.x2, r.b.x3);
    PlaceBelowSize(r.n, i);
    RolledAt(rel, t, k, q, h);
    hide Place, Size, Rolled, Mul;
  }

  lemma RolledAt(rel: Tensor, t: nat, k: nat, q: nat, h: nat)
    requires t > 0 && rel.n == Four(2 * t - 1, t, rel.n.x2, 1) && k < t && q < t && h < rel.n.x2
    ensures At(Rolled(rel, t), Four(t + k - q, q, h, 0)) == At(rel, Four(t - 1 + k - q, q, h, 0))
  {
    hide At;
    RollAt(Pad(rel, 0, 1, 0, 0), Four(t + k - q, q, h, 0));
    PadAt(rel, 0, 1, 0, 0, Four(t - 1 + k - q, q, h, 0));
  }

  /** In the full path too, the slot's position is query minus key. */
  lemma FullPosition(positions: seq<real>, t: nat, k: nat, q: nat)
    requires t > 0 && |positions| == 2 * t - 1 && k < t && q < t
    requires forall u {:trigger positions[u]} :: 0 <= u < |positions| ==> positions[u] == (|positions| / 2 - u) as real
    ensures positions[t - 1 + k - q] == (q - k) as real
  {
    assert (2 * t - 1) / 2 == t - 1;
  }

  lemma ShiftedInBounds(rel: Tensor, t: nat)
    requires t > 0 && rel.n == Four(2 * t - 1, t, rel.n.x2, 1)
    ensures InBounds(Shifted(rel, t))
  {
    hide At, Place, Narrow, Mul;
    forall i | Inside(Shifted(rel, t).n, i) ensures Place(Shifted(rel, t).off, Shifted(rel, t).b, i) < |Shifted(rel, t).mem| {
      ShiftedAt(rel, t, i.x0, i.x1, i.x2);
    }
  }

  /** The view in between has rows that no query reads: it stays within its memory only for a single frame. */
  lemma ShiftViewInBounds(rel: Tensor, t: nat)
    requires t > 0 && rel.n == Four(2 * t - 1, t, rel.n.x2, 1) && rel.n.x2 > 0
    ensures InBounds(ShiftView(rel, t)) <==> t == 1
  {
    var v := ShiftView(rel, t);
    var last := Four(t - 1, 2 * t - 2, rel.n.x2 - 1, 0);
    assert Inside(v.n, last);
    LastShiftPlace(t, rel.n.x2);
    SwapSizes(t, rel.n.x2);
    if t == 1 {
      OneFrame(rel);
    }
    hide Inside, Narrow;
  }

  lemma LastShiftPlace(t: nat, h: nat)
    requires t > 0 && h > 0
    ensures var place := Place(Mul(1, (2 * t - 1) / 2 + 1), Four(1, 2 * t - 1, Mul(2 * t, t), 0), Four(t - 1, 2 * t - 2, h - 1, 0));
      place < Size(Four(2 * t, t, h, 1)) <==> t == 1
  {
    assert (2 * t - 1) / 2 + 1 == t;
    var slab := Mul(2 * t, t);
    Distribute(h, 1, slab);
    assert Size(Four(2 * t, t, h, 1)) == Mul(h - 1, slab) + slab;
    Squares(t);
  }

  lemma Squares(t: nat)
    requires t > 0
    ensures t + (t - 1) + Mul(2 * t - 2, 2 * t - 1) < Mul(2 * t, t) <==> t == 1
  {
    var s := t - 1;
    assert Mul(2 * t - 2, 2 * t - 1) == 4 * (s * s) + 2 * s;
    assert Mul(2 * t, t) == 2 * (s * s) + 4 * s + 2;
    if s > 0 {
      AtLeast(s, s);
    }
  }

  lemma OneFrame(rel: Tensor)
    requires rel.n == Four(1, 1, rel.n.x2, 1)
    ensures InBounds(ShiftView(rel, 1))
  {
    var v := ShiftView(rel, 1);
    forall i | Inside(v.n, i) ensures Place(v.off, v.b, i) < |v.mem| {
      Distribute(rel.n.x2, i.x2, 2);
    }
  }
}
