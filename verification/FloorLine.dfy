/** Lines of the floor curve (Vorbis I, sections 9.2.6 and 9.2.7): the closed form and the incremental drawing. */
module FloorLine {
  import opened Bits

  function Abs(a: int): nat
  {
    if a < 0 then -a else a
  }

  /** C division: towards zero. */
  function Quotient(a: int, b: int): int
    requires b > 0
  {
    if a < 0 then -(-a / b) else a / b
  }

  /** How far from `y0` the line through the two points is at `x`, rounded down. */
  function Offset(x: int, x0: int, x1: int, y0: int, y1: int): (off: nat)
    requires x0 <= x && x0 < x1
  {
    OffsetNonNegative(Abs(y1 - y0), x - x0, x1 - x0);
    Abs(y1 - y0) * (x - x0) / (x1 - x0)
  }

  function PredictPoint(x: int, x0: int, x1: int, y0: int, y1: int): int
    requires x0 <= x && x0 < x1
  {
    var dy := y1 - y0;
    var off := Offset(x, x0, x1, y0, y1);
    if dy < 0 then y0 - off else y0 + off
  }

  lemma OffsetNonNegative(a: nat, d: nat, m: nat)
    requires m > 0
    ensures a * d >= 0 && a * d / m >= 0
  {
    if d > 0 && a > 0 {
      AtLeast(a, d);
    }
    var q, r := QuotRem(a * d, m);
  }

  /** Offset and remainder after moving one step right: the error term grows by the slope's remainder. */
  lemma OffsetStep(ady: nat, d: nat, adx: nat, off: nat, err: nat, q: nat, r: nat)
    requires adx > 0 && ady == q * adx + r && r < adx && err < adx && ady * d == off * adx + err
    ensures ady * (d + 1) == (if err + r >= adx then (off + q + 1) * adx + (err + r - adx) else (off + q) * adx + (err + r))
  {
    Distribute(d, 1, ady);
    Distribute(off, q, adx);
    Distribute(off + q, 1, adx);
  }

  lemma OffsetUnique(x: int, x0: int, x1: int, y0: int, y1: int, off: nat, err: nat)
    requires x0 <= x && x0 < x1 && err < x1 - x0
    requires Abs(y1 - y0) * (x - x0) == off * (x1 - x0) + err
    ensures Offset(x, x0, x1, y0, y1) == off
  {
    DivUnique(Abs(y1 - y0) * (x - x0), x1 - x0, off, err);
  }

  /** The height nearest to the line through the two points on the first point's side (Vorbis I, section 9.2.6). */
  ghost predicate RoundedLine(x: int, x0: int, x1: int, y0: int, y1: int, h: int)
  {
    if y0 <= y1 then (h - y0) * (x1 - x0) <= (y1 - y0) * (x - x0) < (h - y0 + 1) * (x1 - x0)
    else (y0 - h) * (x1 - x0) <= (y0 - y1) * (x - x0) < (y0 - h + 1) * (x1 - x0)
  }

  lemma PredictRounds(x: int, x0: int, x1: int, y0: int, y1: int)
    requires x0 <= x && x0 < x1
    ensures RoundedLine(x, x0, x1, y0, y1, PredictPoint(x, x0, x1, y0, y1))
  {
    var a, d, m := if y0 <= y1 then y1 - y0 else y0 - y1, x - x0, x1 - x0;
    OffsetNonNegative(a, d, m);
    var q, r := QuotRem(a * d, m);
    OffsetUnique(x, x0, x1, y0, y1, q, r);
    Distribute(q, 1, m);
  }

  /** That height is determined. */
  lemma RoundedUnique(x: int, x0: int, x1: int, y0: int, y1: int, h: int, h': int)
    requires x0 < x1 && RoundedLine(x, x0, x1, y0, y1, h) && RoundedLine(x, x0, x1, y0, y1, h')
    ensures h == h'
  {
    var m := x1 - x0;
    if h < h' {
      OneApart(h, h', y0, m);
    }
    if h' < h {
      OneApart(h', h, y0, m);
    }
  }

  lemma OneApart(h: int, h': int, y0: int, m: int)
    requires h < h' && m > 0
    ensures (h - y0 + 1) * m <= (h' - y0) * m && (y0 - h' + 1) * m <= (y0 - h) * m
  {
    AtLeast(h' - h, m);
    Distribute(h' - y0, h - y0, m);
    Distribute(h - y0, 1, m);
    Distribute(y0 - h, y0 - h', m);
    Distribute(y0 - h', 1, m);
  }

  /** Between its end points the line stays between their heights. */
  lemma PredictBetween(x: int, x0: int, x1: int, y0: int, y1: int)
    requires x0 <= x <= x1 && x0 < x1
    ensures if y0 <= y1 then y0 <= PredictPoint(x, x0, x1, y0, y1) <= y1 else y1 <= PredictPoint(x, x0, x1, y0, y1) <= y0
  {
    var a, d, m := Abs(y1 - y0), x - x0, x1 - x0;
    OffsetNonNegative(a, d, m);
    var q, r := QuotRem(a * d, m);
    Distribute(m, d, a);
    if q > a {
      Distribute(q, a, m);
      AtLeast(q - a, m);
      NonNegative(m - d, a);
    }
  }

  lemma NonNegative(a: int, b: int)
    requires a >= 0 && b >= 0
    ensures a * b >= 0
  {}

  // ----- drawing -----

  const LEVELS: nat := 256

  /** Both ends of the line have heights that index the 256-entry table. */
  ghost predicate InTable(y0: int, y1: int)
  {
    0 <= y0 < LEVELS && 0 <= y1 < LEVELS
  }

  function Times(a: real, b: real): real
  {
    a * b
  }

  /** Each entry under the line, up to `n`, multiplied once by the table's value for the height there. */
  ghost function WithLine(o: seq<real>, table: seq<real>, x0: nat, y0: int, x1: nat, y1: int, n: nat): (r: seq<real>)
    requires |table| == LEVELS && x0 < x1 && InTable(y0, y1)
    ensures |r| == |o|
  {
    seq(|o|, x requires 0 <= x < |o| =>
      if x0 <= x < x1 && x < n then Times(o[x], table[HeightAt(x, x0, x1, y0, y1)]) else o[x])
  }

  ghost function HeightAt(x: nat, x0: nat, x1: nat, y0: int, y1: int): (y: nat)
    requires x0 <= x < x1 && InTable(y0, y1)
    ensures y < LEVELS
  {
    PredictBetween(x, x0, x1, y0, y1);
    PredictPoint(x, x0, x1, y0, y1)
  }

  lemma SmallIndex(y: nat)
    requires y < LEVELS
    ensures y % LEVELS == y
  {}

  method Scale(output: array<real>, table: seq<real>, x: nat, y: nat)
    requires x < output.Length && |table| == LEVELS && y < LEVELS
    modifies output
    ensures output[..] == old(output[..])[x := Times(old(output[..])[x], table[y])]
  {
    SmallIndex(y);
    ghost var before := output[..];
    output[x] := Times(output[x], table[y % LEVELS]); // y & 255
    assert output[..] == before[x := output[x]];
  }

  /** The entries before `k` as after drawing, the rest as before. */
  ghost predicate DrawnTo(cur: seq<real>, o: seq<real>, r: seq<real>, k: nat)
  {
    |cur| == |o| == |r| && forall x {:trigger cur[x]} :: 0 <= x < |cur| ==> cur[x] == if x < k then r[x] else o[x]
  }

  lemma DrawnNext(cur: seq<real>, o: seq<real>, table: seq<real>, x0: nat, y0: int, x1: nat, y1: int, n: nat, x: nat, y: nat)
    requires |table| == LEVELS && x0 <= x < x1 && InTable(y0, y1) && x < |o| && x < n && |cur| == |o|
    requires DrawnTo(cur, o, WithLine(o, table, x0, y0, x1, y1, n), x) && y == HeightAt(x, x0, x1, y0, y1) < LEVELS
    ensures DrawnTo(cur[x := Times(cur[x], table[y])], o, WithLine(o, table, x0, y0, x1, y1, n), x + 1)
  {
    hide PredictPoint, InTable;
  }

  /** Outside the columns that the line covers, nothing is to be drawn. */
  lemma DrawnAll(cur: seq<real>, o: seq<real>, table: seq<real>, x0: nat, y0: int, x1: nat, y1: int, n: nat, x: nat)
    requires |table| == LEVELS && x0 < x1 && InTable(y0, y1)
    requires |cur| == |o| && DrawnTo(cur, o, WithLine(o, table, x0, y0, x1, y1, n), x) && (x >= x1 || x >= n)
    ensures cur == WithLine(o, table, x0, y0, x1, y1, n)
  {
    hide PredictPoint, InTable;
  }

  lemma DrawnNothing(o: seq<real>, table: seq<real>, x0: nat, y0: int, x1: nat, y1: int, n: nat)
    requires |table| == LEVELS && x0 < x1 && InTable(y0, y1)
    ensures DrawnTo(o, o, WithLine(o, table, x0, y0, x1, y1, n), x0)
    ensures n <= x0 ==> DrawnTo(o, o, WithLine(o, table, x0, y0, x1, y1, n), n)
  {
    hide PredictPoint, InTable;
  }

  /** `y` is the line's height at column `x`, and `err` what rounding down dropped there, in units of 1/adx. */
  ghost predicate OnLine(x: nat, y: int, err: int, x0: nat, y0: int, x1: nat, y1: int)
    requires x0 < x1
  {
    var off := if y1 < y0 then y0 - y else y - y0;
    x0 <= x && off >= 0 && 0 <= err < x1 - x0 && Abs(y1 - y0) * (x - x0) == off * (x1 - x0) + err
  }

  lemma OnLineHeight(x: nat, y: int, err: int, x0: nat, y0: int, x1: nat, y1: int)
    requires x0 <= x < x1 && InTable(y0, y1) && OnLine(x, y, err, x0, y0, x1, y1)
    ensures y == HeightAt(x, x0, x1, y0, y1) == PredictPoint(x, x0, x1, y0, y1)
  {
    OffsetUnique(x, x0, x1, y0, y1, if y1 < y0 then y0 - y else y - y0, err);
  }

  lemma OnLineStart(x0: nat, y0: int, x1: nat, y1: int)
    requires x0 < x1
    ensures OnLine(x0, y0, 0, x0, y0, x1, y1)
  {}

  /** The integer slope and what it leaves over. */
  lemma SlopeParts(dy: int, adx: nat) returns (q: int, rest: nat)
    requires adx > 0
    ensures q >= 0 && Abs(dy) == q * adx + rest && rest < adx
    ensures Quotient(dy, adx) == (if dy < 0 then -q else q) && Abs(Quotient(dy, adx)) == q
  {
    q, rest := QuotRem(Abs(dy), adx);
  }

  /** One column to the right: the error grows by what the slope leaves over, and a full column's worth carries. */
  lemma OnLineNext(x: nat, y: int, err: int, x0: nat, y0: int, x1: nat, y1: int, base: int, ady: int)
    requires x0 < x1 && OnLine(x, y, err, x0, y0, x1, y1)
    requires base == Quotient(y1 - y0, x1 - x0) && ady == Abs(y1 - y0) - Abs(base) * (x1 - x0)
    ensures err + ady >= x1 - x0 ==>
      OnLine(x + 1, y + (if y1 - y0 < 0 then base - 1 else base + 1), err + ady - (x1 - x0), x0, y0, x1, y1)
    ensures err + ady < x1 - x0 ==> OnLine(x + 1, y + base, err + ady, x0, y0, x1, y1)
  {
    var q, rest := SlopeParts(y1 - y0, x1 - x0);
    hide Quotient;
    OffsetStep(Abs(y1 - y0), x - x0, x1 - x0, if y1 < y0 then y0 - y else y - y0, err, q, rest);
  }

  /** The incremental drawing scales each column once, by the table's value at the closed form's height. */
  method DrawLine(output: array<real>, table: seq<real>, x0: nat, y0: int, x1: nat, y1: int, n: nat)
    requires |table| == LEVELS && x0 < x1 && InTable(y0, y1) && n <= output.Length
    modifies output
    ensures output[..] == WithLine(old(output[..]), table, x0, y0, x1, y1, n)
  {
    hide Times, Quotient, OnLine, WithLine, DrawnTo, HeightAt, PredictPoint, InTable;
    ghost var o := output[..];
    ghost var r := WithLine(o, table, x0, y0, x1, y1, n);
    var dy := y1 - y0;
    var adx := x1 - x0;
    var ady := Abs(dy);
    var x, y, err := x0, y0, 0;
    var base := Quotient(dy, adx);
    var sy := if dy < 0 then base - 1 else base + 1;
    ady := ady - Abs(base) * adx;
    var end := if x1 > n then n else x1;
    DrawnNothing(o, table, x0, y0, x1, y1, n);
    OnLineStart(x0, y0, x1, y1);
    if x < end {
      OnLineHeight(x, y, err, x0, y0, x1, y1);
      DrawnNext(output[..], o, table, x0, y0, x1, y1, n, x, y);
      Scale(output, table, x, y);
      x := x + 1;
      while x < end
        invariant x0 < x <= end
        invariant OnLine(x - 1, y, err, x0, y0, x1, y1)
        invariant DrawnTo(output[..], o, r, x)
      {
        OnLineNext(x - 1, y, err, x0, y0, x1, y1, base, ady);
        err := err + ady;
        if err >= adx {
          err := err - adx;
          y := y + sy;
        } else {
          y := y + base;
        }
        OnLineHeight(x, y, err, x0, y0, x1, y1);
        DrawnNext(output[..], o, table, x0, y0, x1, y1, n, x, y);
        Scale(output, table, x, y);
        x := x + 1;
      }
      DrawnAll(output[..], o, table, x0, y0, x1, y1, n, x);
    } else {
      DrawnAll(output[..], o, table, x0, y0, x1, y1, n, if n <= x0 then n else x0);
    }
  }
}
