/** Rendering the floor curve over a spectrum (Vorbis I, section 7.2.4, step 2). */
module FloorCurve {
  import opened FloorLine
  import opened FloorSetup
  import opened FloorUnwrap

  /** The spread of heights for each multiplier. */
  function RangeOf(multiplier: nat): (range: nat)
    requires 1 <= multiplier <= 4
  {
    match multiplier case 1 => 256 case 2 => 128 case 3 => 86 case _ => 64
  }

  lemma LevelBound(multiplier: nat, y: int)
    requires 1 <= multiplier <= 4 && 0 <= y < RangeOf(multiplier)
    ensures 0 <= y * multiplier < 256 <= RangeOf(multiplier) * multiplier
  {
    match multiplier
    case 1 =>
    case 2 =>
    case 3 =>
    case _ =>
  }

  ghost predicate Used(ys: seq<int>, c: nat)
  {
    c < |ys| && ys[c] >= 0
  }

  function Level(f: Floor, y: int): int
  {
    y * f.multiplier
  }

  /** The points' heights, or the mark for an unused one, as the unwrapping leaves them. */
  ghost predicate Unwrapped(f: Floor, ys: seq<int>)
  {
    && Valid(f) && 1 <= f.multiplier <= 4 && |ys| == |f.xs| && Used(ys, 0)
    && forall j {:trigger ys[j]} :: 0 <= j < |ys| ==> ys[j] < RangeOf(f.multiplier)
  }

  // ----- the curve, as a function of the column -----

  ghost predicate LastAt(f: Floor, ys: seq<int>, x: nat, a: nat)
    requires |ys| == |f.xs|
  {
    Used(ys, a) && f.xs[a] <= x && forall c: nat {:trigger Used(ys, c)} :: Used(ys, c) && f.xs[c] <= x ==> f.xs[c] <= f.xs[a]
  }

  ghost predicate FirstAfter(f: Floor, ys: seq<int>, x: nat, b: nat)
    requires |ys| == |f.xs|
  {
    Used(ys, b) && x < f.xs[b] && forall c: nat {:trigger Used(ys, c)} :: Used(ys, c) && x < f.xs[c] ==> f.xs[b] <= f.xs[c]
  }

  ghost predicate NoneAfter(f: Floor, ys: seq<int>, x: nat)
    requires |ys| == |f.xs|
  {
    forall c: nat {:trigger Used(ys, c)} :: Used(ys, c) ==> f.xs[c] <= x
  }

  /** `h` is the level at column `x`: on the line from corner `a` to the next corner `b`, or that of the last corner. */
  ghost predicate Piece(f: Floor, ys: seq<int>, x: nat, h: int, a: nat, b: nat)
    requires |ys| == |f.xs|
  {
    && LastAt(f, ys, x, a)
    && if a == b then NoneAfter(f, ys, x) && h == Level(f, ys[a])
       else FirstAfter(f, ys, x, b) && h == PredictPoint(x, f.xs[a], f.xs[b], Level(f, ys[a]), Level(f, ys[b]))
  }

  ghost predicate CurveAt(f: Floor, ys: seq<int>, x: nat, h: int)
    requires |ys| == |f.xs|
  {
    exists a, b :: Piece(f, ys, x, h, a, b)
  }

  lemma CurveUnique(f: Floor, ys: seq<int>, x: nat, h: int, h': int)
    requires Valid(f) && |ys| == |f.xs| && CurveAt(f, ys, x, h) && CurveAt(f, ys, x, h')
    ensures h == h'
  {
    var a, b :| Piece(f, ys, x, h, a, b);
    var a', b' :| Piece(f, ys, x, h', a', b');
    SameColumn(f, a, a');
    if a != b && a' != b' {
      SameColumn(f, b, b');
    }
  }

  lemma SameColumn(f: Floor, a: nat, b: nat)
    requires Valid(f) && a < |f.xs| && b < |f.xs| && f.xs[a] == f.xs[b]
    ensures a == b
  {
    assert DistinctColumns(f.xs);
    assert !(a < b) && !(b < a);
  }

  // ----- the scaled columns, in plain numbers -----

  /** `a` and `b` are used points with none in between. */
  ghost predicate NextTo(f: Floor, ys: seq<int>, a: nat, b: nat)
    requires |ys| == |f.xs|
  {
    a < |ys| && b < |ys| && ys[a] >= 0 && ys[b] >= 0 && f.xs[a] < f.xs[b]
    && forall c {:trigger f.xs[c]} :: 0 <= c < |ys| && ys[c] >= 0 ==> f.xs[c] <= f.xs[a] || f.xs[b] <= f.xs[c]
  }

  ghost predicate Rightmost(f: Floor, ys: seq<int>, a: nat)
    requires |ys| == |f.xs|
  {
    a < |ys| && ys[a] >= 0 && forall c {:trigger f.xs[c]} :: 0 <= c < |ys| && ys[c] >= 0 ==> f.xs[c] <= f.xs[a]
  }

  ghost predicate TimesEntry(table: seq<real>, old_: real, new_: real, h: int)
    requires |table| == 256
  {
    0 <= h < 256 && new_ == old_ * table[h]
  }

  ghost predicate OnTheLine(f: Floor, ys: seq<int>, table: seq<real>, old_: real, new_: real, x: nat, a: nat, b: nat)
    requires |ys| == |f.xs| && |table| == 256 && a < |ys| && b < |ys|
  {
    exists h {:trigger TimesEntry(table, old_, new_, h)} :: TimesEntry(table, old_, new_, h) &&
      RoundedLine(x, f.xs[a], f.xs[b], ys[a] * f.multiplier, ys[b] * f.multiplier, h)
  }

  /**
   Every used point scales its column by the table's entry for its height times the multiplier; the columns between
   neighbouring ones by the entries on the line; those after the last by its entry; nothing from `n` on changes.
   */
  ghost predicate Rendered(f: Floor, ys: seq<int>, table: seq<real>, o: seq<real>, cur: seq<real>, n: nat)
    requires |ys| == |f.xs| && |table| == 256
  {
    && |cur| == |o| && n <= |o|
    && (forall a {:trigger ys[a]} :: 0 <= a < |ys| && ys[a] >= 0 && f.xs[a] < n ==>
      TimesEntry(table, o[f.xs[a]], cur[f.xs[a]], ys[a] * f.multiplier))
    && (forall a: nat, b: nat, x: nat {:trigger NextTo(f, ys, a, b), cur[x]} :: NextTo(f, ys, a, b) && f.xs[a] <= x < f.xs[b] && x < n ==>
      OnTheLine(f, ys, table, o[x], cur[x], x, a, b))
    && (forall a: nat, x: nat {:trigger Rightmost(f, ys, a), cur[x]} :: Rightmost(f, ys, a) && f.xs[a] <= x < n ==>
      TimesEntry(table, o[x], cur[x], ys[a] * f.multiplier))
    && forall x {:trigger cur[x]} :: n <= x < |o| ==> cur[x] == o[x]
  }

  lemma FirstOfLine(f: Floor, ys: seq<int>, a: nat, b: nat, h: int)
    requires |ys| == |f.xs| && a < |f.xs| && Piece(f, ys, f.xs[a], h, a, b)
    ensures h == ys[a] * f.multiplier
  {
    if a != b {
      OffsetUnique(f.xs[a], f.xs[a], f.xs[b], Level(f, ys[a]), Level(f, ys[b]), 0, 0);
    }
  }

  lemma CornerRendered(f: Floor, ys: seq<int>, a: nat, h: int)
    requires Valid(f) && |ys| == |f.xs| && a < |ys| && ys[a] >= 0 && CurveAt(f, ys, f.xs[a], h)
    ensures h == ys[a] * f.multiplier
  {
    var a', b :| Piece(f, ys, f.xs[a], h, a', b);
    assert Used(ys, a);
    SameColumn(f, a, a');
    FirstOfLine(f, ys, a, b, h);
  }

  lemma LineRendered(f: Floor, ys: seq<int>, a: nat, b: nat, x: nat, h: int)
    requires Valid(f) && |ys| == |f.xs| && NextTo(f, ys, a, b) && f.xs[a] <= x < f.xs[b] && CurveAt(f, ys, x, h)
    ensures RoundedLine(x, f.xs[a], f.xs[b], ys[a] * f.multiplier, ys[b] * f.multiplier, h)
  {
    hide PredictPoint, RoundedLine;
    var a', b' :| Piece(f, ys, x, h, a', b');
    assert Used(ys, a) && Used(ys, b);
    SameColumn(f, a, a');
    if a' != b' {
      SameColumn(f, b, b');
    }
    PredictRounds(x, f.xs[a], f.xs[b], ys[a] * f.multiplier, ys[b] * f.multiplier);
  }

  lemma TailRendered(f: Floor, ys: seq<int>, a: nat, x: nat, h: int)
    requires Valid(f) && |ys| == |f.xs| && Rightmost(f, ys, a) && f.xs[a] <= x && CurveAt(f, ys, x, h)
    ensures h == ys[a] * f.multiplier
  {
    hide PredictPoint;
    var a', b :| Piece(f, ys, x, h, a', b);
    assert Used(ys, a);
    SameColumn(f, a, a');
  }

  lemma EntryAt(f: Floor, ys: seq<int>, table: seq<real>, o: seq<real>, cur: seq<real>, n: nat, x: nat) returns (h: int)
    requires |ys| == |f.xs| && |table| == LEVELS && x < n <= |o| && ScaledTo(f, ys, table, o, cur, n, n)
    ensures |cur| == |o| && CurveAt(f, ys, x, h) && TimesEntry(table, o[x], cur[x], h)
  {
    hide CurveAt;
    assert Scaled(f, ys, table, o[x], cur[x], x);
    h :| CurveAt(f, ys, x, h) && 0 <= h < LEVELS && cur[x] == Times(o[x], table[h]);
  }

  lemma ScaledIsRendered(f: Floor, ys: seq<int>, table: seq<real>, o: seq<real>, cur: seq<real>, n: nat)
    requires Unwrapped(f, ys) && |table| == LEVELS && n <= |o| && ScaledTo(f, ys, table, o, cur, n, n)
    ensures Rendered(f, ys, table, o, cur, n)
  {
    assert Valid(f) && |cur| == |o| && forall x {:trigger cur[x]} :: n <= x < |o| ==> cur[x] == o[x];
    hide CurveAt, Valid, RoundedLine, Rightmost, NextTo, TimesEntry, Scaled, ScaledTo, Unwrapped;
    forall a {:trigger ys[a]} | 0 <= a < |ys| && ys[a] >= 0 && f.xs[a] < n
      ensures TimesEntry(table, o[f.xs[a]], cur[f.xs[a]], ys[a] * f.multiplier)
    {
      var h := EntryAt(f, ys, table, o, cur, n, f.xs[a]);
      CornerRendered(f, ys, a, h);
    }
    forall a: nat, b: nat, x: nat {:trigger NextTo(f, ys, a, b), cur[x]} |
      NextTo(f, ys, a, b) && a < |ys| && b < |ys| && f.xs[a] <= x < f.xs[b] && x < n
      ensures OnTheLine(f, ys, table, o[x], cur[x], x, a, b)
    {
      var h := EntryAt(f, ys, table, o, cur, n, x);
      LineRendered(f, ys, a, b, x, h);
    }
    forall a: nat, x: nat {:trigger Rightmost(f, ys, a), cur[x]} | Rightmost(f, ys, a) && a < |ys| && f.xs[a] <= x < n
      ensures TimesEntry(table, o[x], cur[x], ys[a] * f.multiplier)
    {
      var h := EntryAt(f, ys, table, o, cur, n, x);
      TailRendered(f, ys, a, x, h);
    }
    InRange(f, ys);
  }

  lemma InRange(f: Floor, ys: seq<int>)
    requires |ys| == |f.xs|
    ensures forall a: nat, b: nat {:trigger NextTo(f, ys, a, b)} :: NextTo(f, ys, a, b) ==> a < |ys| && b < |ys|
    ensures forall a: nat {:trigger Rightmost(f, ys, a)} :: Rightmost(f, ys, a) ==> a < |ys|
  {}

  // ----- rendering -----

  ghost predicate Scaled(f: Floor, ys: seq<int>, table: seq<real>, old_: real, new_: real, x: nat)
    requires |ys| == |f.xs| && |table| == LEVELS
  {
    exists h {:trigger CurveAt(f, ys, x, h)} :: CurveAt(f, ys, x, h) && 0 <= h < LEVELS && new_ == Times(old_, table[h])
  }

  /** The columns before `k` scaled by the curve, the rest, and everything from `n` on, as before. */
  ghost predicate ScaledTo(f: Floor, ys: seq<int>, table: seq<real>, o: seq<real>, cur: seq<real>, n: nat, k: nat)
    requires |ys| == |f.xs| && |table| == LEVELS
  {
    && |cur| == |o|
    && forall x {:trigger cur[x]} :: 0 <= x < |cur| ==>
      if x < k && x < n then Scaled(f, ys, table, o[x], cur[x], x) else cur[x] == o[x]
  }

  /** `a` is the last corner among the first `q` points in column order. */
  ghost predicate Reached(f: Floor, ys: seq<int>, q: nat, a: nat)
    requires |ys| == |f.xs|
  {
    && q <= |f.order| && Used(ys, a)
    && forall c: nat {:trigger Used(ys, c)} :: Used(ys, c) ==> f.xs[c] <= f.xs[a] || c in f.order[q..]
  }

  lemma LaterColumns(f: Floor, q: nat, c: nat)
    requires Valid(f) && q < |f.order| && c in f.order[q..]
    ensures f.order[q] < |f.xs| && c < |f.xs| && f.xs[f.order[q]] <= f.xs[c] && (c == f.order[q] || c in f.order[q + 1..])
  {
    var p :| q <= p < |f.order| && f.order[p] == c;
    assert p > q ==> f.order[q + 1..][p - q - 1] == c;
  }

  lemma ReachedFirst(f: Floor, ys: seq<int>)
    requires Unwrapped(f, ys)
    ensures Reached(f, ys, 1, 0)
  {
    forall c: nat {:trigger Used(ys, c)} | Used(ys, c) ensures f.xs[c] <= f.xs[0] || c in f.order[1..] {
      assert c in f.order && f.order[0..] == f.order;
      LaterColumns(f, 0, c);
      assert 0 in f.order;
      LaterColumns(f, 0, 0);
    }
  }

  lemma ReachedNext(f: Floor, ys: seq<int>, q: nat, a: nat)
    requires Unwrapped(f, ys) && q < |f.xs| && Reached(f, ys, q, a)
    ensures q < |f.order| && f.order[q] < |f.xs|
    ensures !Used(ys, f.order[q]) ==> Reached(f, ys, q + 1, a)
    ensures Used(ys, f.order[q]) && f.xs[a] <= f.xs[f.order[q]] ==> Reached(f, ys, q + 1, f.order[q])
  {
    forall c: nat {:trigger Used(ys, c)} | Used(ys, c)
      ensures f.xs[c] <= f.xs[a] || c == f.order[q] || c in f.order[q + 1..]
    {
      if c in f.order[q..] {
        LaterColumns(f, q, c);
      }
    }
  }

  /** From one corner to the next, the line between them is the curve. */
  lemma LineIsCurve(f: Floor, ys: seq<int>, q: nat, a: nat, x: nat)
    requires Unwrapped(f, ys) && q < |f.xs| && Reached(f, ys, q, a) && q < |f.order| && f.order[q] < |f.xs| && Used(ys, f.order[q])
    requires f.xs[a] <= x < f.xs[f.order[q]]
    ensures CurveAt(f, ys, x, PredictPoint(x, f.xs[a], f.xs[f.order[q]], Level(f, ys[a]), Level(f, ys[f.order[q]])))
  {
    hide PredictPoint;
    var b := f.order[q];
    forall c: nat {:trigger Used(ys, c)} | Used(ys, c) ensures f.xs[c] <= f.xs[a] || f.xs[b] <= f.xs[c] {
      if c in f.order[q..] {
        LaterColumns(f, q, c);
      }
    }
    assert Piece(f, ys, x, PredictPoint(x, f.xs[a], f.xs[b], Level(f, ys[a]), Level(f, ys[b])), a, b);
  }

  /** After the last corner the curve is flat. */
  lemma TailIsCurve(f: Floor, ys: seq<int>, a: nat, x: nat)
    requires Unwrapped(f, ys) && Reached(f, ys, |f.order|, a) && f.xs[a] <= x
    ensures CurveAt(f, ys, x, Level(f, ys[a]))
  {
    assert Piece(f, ys, x, Level(f, ys[a]), a, a);
  }

  lemma LevelInTable(f: Floor, ys: seq<int>, a: nat)
    requires Unwrapped(f, ys) && Used(ys, a)
    ensures 0 <= Level(f, ys[a]) < LEVELS
  {
    LevelBound(f.multiplier, ys[a]);
  }

  /** The columns that the line covers join those already scaled. */
  lemma ScaledByLine(f: Floor, ys: seq<int>, table: seq<real>, o: seq<real>, cur: seq<real>, n: nat, q: nat, a: nat)
    requires Unwrapped(f, ys) && |table| == LEVELS && q < |f.order| && f.order[q] < |f.xs|
    requires Reached(f, ys, q, a) && Used(ys, f.order[q]) && f.xs[a] < f.xs[f.order[q]]
    requires ScaledTo(f, ys, table, o, cur, n, f.xs[a])
    requires InTable(Level(f, ys[a]), Level(f, ys[f.order[q]]))
    ensures ScaledTo(f, ys, table, o,
      WithLine(cur, table, f.xs[a], Level(f, ys[a]), f.xs[f.order[q]], Level(f, ys[f.order[q]]), n), n, f.xs[f.order[q]])
  {
    var b := f.order[q];
    assert a < |ys| == |f.xs| && b < |ys|;
    hide Level, PredictPoint, CurveAt, Reached, InTable, Valid;
    var r := WithLine(cur, table, f.xs[a], Level(f, ys[a]), f.xs[b], Level(f, ys[b]), n);
    forall x {:trigger r[x]} | 0 <= x < |r|
      ensures if x < f.xs[b] && x < n then Scaled(f, ys, table, o[x], r[x], x) else r[x] == o[x]
    {
      assert cur[x] == cur[x];
      if f.xs[a] <= x < f.xs[b] && x < n {
        assert q < |f.xs| by { OrderLength(f); }
        LineIsCurve(f, ys, q, a, x);
        assert CurveAt(f, ys, x, HeightAt(x, f.xs[a], f.xs[b], Level(f, ys[a]), Level(f, ys[b])));
      }
    }
  }

  lemma OrderLength(f: Floor)
    requires Valid(f)
    ensures |f.order| == |f.xs|
  {}

  lemma ScaledByTail(f: Floor, ys: seq<int>, table: seq<real>, o: seq<real>, cur: seq<real>, n: nat, a: nat, x: nat)
    requires Unwrapped(f, ys) && |table| == LEVELS && Reached(f, ys, |f.order|, a) && f.xs[a] <= x < n <= |o|
    requires ScaledTo(f, ys, table, o, cur, n, x)
    ensures 0 <= Level(f, ys[a]) < LEVELS && x < |cur|
    ensures ScaledTo(f, ys, table, o, cur[x := Times(cur[x], table[Level(f, ys[a])])], n, x + 1)
  {
    LevelInTable(f, ys, a);
    TailIsCurve(f, ys, a, x);
    hide Level, CurveAt, Reached, Unwrapped, Times;
    var r := cur[x := Times(cur[x], table[Level(f, ys[a])])];
    assert cur[x] == o[x];
    assert CurveAt(f, ys, x, Level(f, ys[a]));
    forall y {:trigger r[y]} | 0 <= y < |r|
      ensures if y < x + 1 && y < n then Scaled(f, ys, table, o[y], r[y], y) else r[y] == o[y]
    {
      assert y != x ==> r[y] == cur[y];
    }
  }

  lemma ScaledNothing(f: Floor, ys: seq<int>, table: seq<real>, o: seq<real>, n: nat)
    requires Unwrapped(f, ys) && |table| == LEVELS
    ensures ScaledTo(f, ys, table, o, o, n, f.xs[0])
  {}

  lemma ScaledAll(f: Floor, ys: seq<int>, table: seq<real>, o: seq<real>, cur: seq<real>, n: nat, k: nat)
    requires Unwrapped(f, ys) && |table| == LEVELS && k >= n && ScaledTo(f, ys, table, o, cur, n, k)
    ensures ScaledTo(f, ys, table, o, cur, n, n)
  {}

  lemma NextIsRight(f: Floor, ys: seq<int>, q: nat, a: nat)
    requires Unwrapped(f, ys) && q < |f.order| && a < |f.xs| && a in f.order[..q]
    ensures f.order[q] < |f.xs| && f.xs[a] < f.xs[f.order[q]] && f.order[q] in f.order[..q + 1]
  {
    var p :| 0 <= p < q && f.order[p] == a;
    assert f.order[..q + 1][q] == f.order[q];
  }

  lemma StillIn(order: seq<nat>, q: nat, a: nat)
    requires q < |order| && a in order[..q]
    ensures a in order[..q + 1]
  {
    assert order[..q + 1] == order[..q] + [order[q]];
  }

  lemma StartsFirst(f: Floor)
    requires Valid(f)
    ensures 0 in f.order[..1]
  {
    assert 0 in f.order;
    assert f.order[0..] == f.order;
    LaterColumns(f, 0, 0);
    SameColumn(f, 0, f.order[0]);
    assert f.order[..1][0] == 0;
  }

  /** Multiplies each of the first `n` columns exactly once, by the table's value at the curve's level there. */
  method RenderFloor(f: Floor, ys: seq<int>, table: seq<real>, target: array<real>, n: nat)
    requires Unwrapped(f, ys) && |table| == LEVELS && n <= target.Length
    modifies target
    ensures ScaledTo(f, ys, table, old(target[..]), target[..], n, n)
    ensures |ys| == |f.xs| && Rendered(f, ys, table, old(target[..]), target[..], n)
  {
    OrderLength(f);
    ReachedFirst(f, ys);
    StartsFirst(f);
    LevelInTable(f, ys, 0);
    ghost var o, a := target[..], 0;
    ScaledNothing(f, ys, table, o, n);
    hide ScaledTo, Rendered, Reached, Level, Times, WithLine, Valid;
    var lx, ly: int := f.xs[0], Level(f, ys[0]);
    for q := 1 to |f.xs|
      invariant Reached(f, ys, q, a) && Used(ys, a) && a in f.order[..q] && lx == f.xs[a] && ly == Level(f, ys[a])
      invariant 0 <= ly < LEVELS
      invariant ScaledTo(f, ys, table, o, target[..], n, lx)
    {
      ReachedNext(f, ys, q, a);
      var j := f.order[q];
      NextIsRight(f, ys, q, a);
      if ys[j] >= 0 {
        LevelInTable(f, ys, j);
        var hy, hx := Level(f, ys[j]), f.xs[j];
        ScaledByLine(f, ys, table, o, target[..], n, q, a);
        if lx != hx {
          DrawLine(target, table, lx, ly, hx, hy, n);
        }
        lx, ly, a := hx, hy, j;
      } else {
        StillIn(f.order, q, a);
      }
    }
    DrawTail(f, ys, table, target, n, lx, ly, a, o);
    ScaledIsRendered(f, ys, table, o, target[..], n);
  }

  method DrawTail(f: Floor, ys: seq<int>, table: seq<real>, target: array<real>, n: nat, lx: nat, ly: nat, ghost a: nat, ghost o: seq<real>)
    requires Unwrapped(f, ys) && |table| == LEVELS && n <= target.Length && |o| == target.Length
    requires Reached(f, ys, |f.order|, a) && Used(ys, a) && lx == f.xs[a] && ly == Level(f, ys[a]) && ly < LEVELS
    requires ScaledTo(f, ys, table, o, target[..], n, lx)
    modifies target
    ensures ScaledTo(f, ys, table, o, target[..], n, n)
  {
    assert |ys| == |f.xs|;
    hide ScaledTo, Reached, Level, Times, Valid, Unwrapped;
    if lx < n {
      for x := lx to n
        invariant ScaledTo(f, ys, table, o, target[..], n, x)
      {
        ScaledByTail(f, ys, table, o, target[..], n, a, x);
        Scale(target, table, x, ly);
      }
    } else {
      ScaledAll(f, ys, table, o, target[..], n, lx);
    }
  }

  /** The corners keep their heights, the other points are marked as unused. */
  ghost predicate Kept(f: Floor, rs: seq<int>, ys: seq<int>, kept: seq<int>)
    requires |f.xs| <= |rs| && |f.xs| <= |f.neighbours| && |f.xs| <= |ys| && |f.xs| == |kept|
  {
    forall j {:trigger kept[j]} :: 0 <= j < |f.xs| ==> kept[j] == if Corner(f, rs, j, |f.xs|) then ys[j] else -1
  }

  lemma KeptIsUnwrapped(f: Floor, rs: seq<int>, ys: seq<int>, kept: seq<int>)
    requires Valid(f) && 1 <= f.multiplier <= 4 && |f.xs| <= |rs| && |f.xs| <= |ys| && |f.xs| == |kept|
    requires Heights(ys, |f.xs|, RangeOf(f.multiplier)) && Kept(f, rs, ys, kept)
    ensures Unwrapped(f, kept)
  {
    assert 2 <= |f.xs| && |f.neighbours| == |f.xs|;
    hide Valid;
    assert Corner(f, rs, 0, |f.xs|);
    assert Used(kept, 0) by { assert kept[0] == ys[0]; }
    forall j {:trigger kept[j]} | 0 <= j < |kept| ensures kept[j] < RangeOf(f.multiplier) {
      assert ys[j] < RangeOf(f.multiplier);
    }
  }
}
