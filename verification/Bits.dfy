/** Unsigned 32-bit words seen as naturals, as bit strings (least significant bit first), and reversed. */
module Bits {

  const WORD: nat := 0x1_0000_0000

  function Pow2(k: nat): (r: nat)
    ensures r >= 1
  {
    if k == 0 then 1 else 2 * Pow2(k - 1)
  }

  lemma {:induction false} Pow2Add(a: nat, b: nat)
    ensures Pow2(a + b) == Pow2(a) * Pow2(b)
  {
    if a > 0 {
      Pow2Add(a - 1, b);
      assert Pow2(a + b) == 2 * Pow2(a - 1 + b);
    }
  }

  lemma {:induction false} Pow2Monotone(a: nat, b: nat)
    requires a <= b
    ensures Pow2(a) <= Pow2(b)
    ensures a < b ==> Pow2(a) < Pow2(b)
    decreases b - a
  {
    if a < b {
      Pow2Monotone(a, b - 1);
    }
  }

  lemma Pow2Values()
    ensures Pow2(4) == 16 && Pow2(8) == 256 && Pow2(10) == 1024 && Pow2(24) == 0x100_0000
    ensures Pow2(31) == 0x8000_0000 && Pow2(32) == WORD
  {
    assert Pow2(4) == 16;
    Pow2Add(4, 4);
    assert Pow2(9) == 512;
    Pow2Add(8, 8);
    Pow2Add(16, 8);
    Pow2Add(16, 16);
  }

  // ----- division with remainder -----

  lemma QuotRem(n: int, m: nat) returns (q: int, r: nat)
    requires m > 0
    ensures q == n / m && r == n % m && n == q * m + r && r < m
    ensures n >= 0 ==> q >= 0
  {
    q, r := n / m, n % m;
  }

  lemma Distribute(a: int, b: int, m: int)
    ensures (a - b) * m == a * m - b * m && (a + b) * m == a * m + b * m
  {}

  lemma AtLeast(a: int, m: nat)
    requires a >= 1
    ensures a * m >= m
  {}

  lemma Associate(a: int, b: int, c: int)
    ensures (a * b) * c == a * (b * c)
  {}

  lemma DivUnique(n: int, m: nat, q: int, r: nat)
    requires m > 0 && r < m && n == q * m + r
    ensures n / m == q && n % m == r
  {
    var q', r' := QuotRem(n, m);
    Distribute(q, q', m);
    Distribute(q', q, m);
    if q > q' {
      AtLeast(q - q', m);
    } else if q' > q {
      AtLeast(q' - q, m);
    }
  }

  // ----- multiples of powers of two -----

  /** The low `k` bits of `n` are zero. */
  predicate Aligned(n: nat, k: nat)
  {
    k == 0 || (n % 2 == 0 && Aligned(n / 2, k - 1))
  }

  lemma {:induction false} AlignedMeaning(n: nat, k: nat)
    ensures Aligned(n, k) <==> n % Pow2(k) == 0
  {
    if k > 0 {
      AlignedMeaning(n / 2, k - 1);
      var q, r := QuotRem(n / 2, Pow2(k - 1));
      Associate(q, 2, Pow2(k - 1));
      Associate(2, q, Pow2(k - 1));
      DivUnique(n, Pow2(k), q, 2 * r + n % 2);
    }
  }

  lemma {:induction false} AlignedGap(a: nat, b: nat, k: nat)
    requires Aligned(a, k) && Aligned(b, k) && a < b
    ensures a + Pow2(k) <= b
  {
    if k > 0 {
      AlignedGap(a / 2, b / 2, k - 1);
    }
  }

  lemma {:induction false} AlignedCoarser(a: nat, x: nat, y: nat)
    requires y <= x && Aligned(a, x)
    ensures Aligned(a, y)
  {
    if y > 0 {
      AlignedCoarser(a / 2, x - 1, y - 1);
    }
  }

  lemma {:induction false} AlignedStep(a: nat, k: nat)
    requires Aligned(a, k)
    ensures Aligned(a + Pow2(k), k)
  {
    if k > 0 {
      AlignedStep(a / 2, k - 1);
      assert (a + Pow2(k)) / 2 == a / 2 + Pow2(k - 1);
    }
  }

  // ----- bit strings -----

  /** The low `w` bits of `n`, least significant first. */
  function BitsOf(n: nat, w: nat): (bs: seq<bool>)
    ensures |bs| == w
  {
    if w == 0 then [] else [n % 2 == 1] + BitsOf(n / 2, w - 1)
  }

  function Value(bs: seq<bool>): (v: nat)
  {
    if bs == [] then 0 else (if bs[0] then 1 else 0) + 2 * Value(bs[1..])
  }

  lemma {:induction false} ValueBound(bs: seq<bool>)
    ensures Value(bs) < Pow2(|bs|)
  {
    if bs != [] {
      ValueBound(bs[1..]);
    }
  }

  lemma {:induction false} ValueOfBits(n: nat, w: nat)
    requires n < Pow2(w)
    ensures Value(BitsOf(n, w)) == n
  {
    if w > 0 {
      ValueOfBits(n / 2, w - 1);
      assert BitsOf(n, w)[1..] == BitsOf(n / 2, w - 1);
    }
  }

  lemma {:induction false} BitsOfValue(bs: seq<bool>)
    ensures BitsOf(Value(bs), |bs|) == bs
  {
    if bs != [] {
      BitsOfValue(bs[1..]);
      assert Value(bs) / 2 == Value(bs[1..]);
    }
  }

  /** Doubling the weight of `hi` moves it one bit up. */
  lemma HalveJoin(lo: nat, hi: nat, k: nat)
    requires k > 0
    ensures (lo + hi * Pow2(k)) % 2 == lo % 2
    ensures (lo + hi * Pow2(k)) / 2 == lo / 2 + hi * Pow2(k - 1)
  {
    var t := hi * Pow2(k - 1);
    Associate(hi, Pow2(k - 1), 2);
    assert hi * Pow2(k) == 2 * t;
  }

  /** Placing `hi` above a `k`-bit `lo` appends its bit string. */
  lemma {:induction false} BitsJoin(lo: nat, hi: nat, k: nat, w: nat)
    requires k <= w && lo < Pow2(k)
    ensures BitsOf(lo + hi * Pow2(k), w) == BitsOf(lo, k) + BitsOf(hi, w - k)
  {
    if k > 0 {
      HalveJoin(lo, hi, k);
      BitsJoin(lo / 2, hi, k - 1, w - 1);
    }
  }

  /** Cutting the bit string after `k` bits is division with remainder by 2^k. */
  lemma SplitAt(n: nat, q: nat, r: nat, k: nat, w: nat)
    requires k <= w && r < Pow2(k) && n == q * Pow2(k) + r
    ensures BitsOf(n, w)[..k] == BitsOf(r, k)
    ensures BitsOf(n, w)[k..] == BitsOf(q, w - k)
  {
    BitsJoin(r, q, k, w);
  }

  // ----- reversal -----

  /** The `w`-bit number whose bits are those of `n` in the opposite order. */
  function Reverse(n: nat, w: nat): (r: nat)
  {
    if w == 0 then 0 else (if n % 2 == 1 then Pow2(w - 1) else 0) + Reverse(n / 2, w - 1)
  }

  lemma {:induction false} ReverseBound(n: nat, w: nat)
    ensures Reverse(n, w) < Pow2(w)
  {
    if w > 0 {
      ReverseBound(n / 2, w - 1);
    }
  }

  lemma {:induction false} ReverseJoin(lo: nat, hi: nat, a: nat, b: nat)
    requires lo < Pow2(a)
    ensures Reverse(lo + hi * Pow2(a), a + b) == Reverse(lo, a) * Pow2(b) + Reverse(hi, b)
  {
    if a > 0 {
      HalveJoin(lo, hi, a);
      ReverseJoin(lo / 2, hi, a - 1, b);
      Pow2Add(a - 1, b);
      Distribute(Pow2(a - 1), Reverse(lo / 2, a - 1), Pow2(b));
    }
  }

  /** Setting or clearing the top bit. */
  lemma TopBit(r: nat, b: bool, w: nat)
    requires r < Pow2(w)
    ensures var n := r + if b then Pow2(w) else 0;
            BitsOf(n, w + 1) == BitsOf(r, w) + [b] && Reverse(n, w + 1) == 2 * Reverse(r, w) + if b then 1 else 0
  {
    var hi := if b then 1 else 0;
    BitsJoin(r, hi, w, w + 1);
    ReverseJoin(r, hi, w, 1);
    assert BitsOf(hi, 1) == [b] && Reverse(hi, 1) == hi;
  }

  lemma {:induction false} ReverseInvolution(n: nat, w: nat)
    requires n < Pow2(w)
    ensures Reverse(Reverse(n, w), w) == n
  {
    if w > 0 {
      var r := Reverse(n / 2, w - 1);
      assert Reverse(Reverse(n, w), w) == 2 * Reverse(r, w - 1) + n % 2 by {
        ReverseBound(n / 2, w - 1);
        TopBit(r, n % 2 == 1, w - 1);
      }
      ReverseInvolution(n / 2, w - 1);
    }
  }

  lemma ReverseBitsStep(n: nat, w: nat)
    requires w > 0
    ensures BitsOf(Reverse(n, w), w) == BitsOf(Reverse(n / 2, w - 1), w - 1) + [n % 2 == 1]
  {
    ReverseBound(n / 2, w - 1);
    TopBit(Reverse(n / 2, w - 1), n % 2 == 1, w - 1);
  }

  /** Bit `i` of the reversal is bit `w - 1 - i` of the number. */
  lemma {:induction false} ReverseBits(n: nat, w: nat, i: nat)
    requires i < w
    ensures BitsOf(Reverse(n, w), w)[i] == BitsOf(n, w)[w - 1 - i]
  {
    ReverseBitsStep(n, w);
    if i < w - 1 {
      ReverseBits(n / 2, w - 1, i);
    }
  }

  // ----- the masked swaps of bit_reverse -----

  function BitReverse(n: bv32): bv32
  {
    var a := ((n & 0xAAAAAAAA) >> 1) | ((n & 0x55555555) << 1);
    var b := ((a & 0xCCCCCCCC) >> 2) | ((a & 0x33333333) << 2);
    var c := ((b & 0xF0F0F0F0) >> 4) | ((b & 0x0F0F0F0F) << 4);
    var d := ((c & 0xFF00FF00) >> 8) | ((c & 0x00FF00FF) << 8);
    (d >> 16) | (d << 16)
  }

  /** Bit `i` of the lowest byte of a machine word. */
  predicate ByteBit(n: bv32, i: nat)
    requires i < 8
  {
    if i == 0 then n & 0x01 != 0
    else if i == 1 then n & 0x02 != 0
    else if i == 2 then n & 0x04 != 0
    else if i == 3 then n & 0x08 != 0
    else if i == 4 then n & 0x10 != 0
    else if i == 5 then n & 0x20 != 0
    else if i == 6 then n & 0x40 != 0
    else n & 0x80 != 0
  }

  /** Bit `i` of a machine word. */
  predicate WordBit(n: bv32, i: nat)
    requires i < 32
  {
    if i < 8 then ByteBit(n, i)
    else if i < 16 then ByteBit(n >> 8, i - 8)
    else if i < 24 then ByteBit(n >> 16, i - 16)
    else ByteBit(n >> 24, i - 24)
  }

  /** The bits of a machine word, least significant first. */
  function WordBits(n: bv32): (bs: seq<bool>)
    ensures |bs| == 32
  {
    seq(32, i requires 0 <= i < 32 => WordBit(n, i))
  }

  /** The lowest bytes of `x` and `y` mirror each other. */
  ghost predicate ByteMirror(x: bv32, y: bv32)
  {
    && (x & 0x01 != 0 <==> y & 0x80 != 0)
    && (x & 0x02 != 0 <==> y & 0x40 != 0)
    && (x & 0x04 != 0 <==> y & 0x20 != 0)
    && (x & 0x08 != 0 <==> y & 0x10 != 0)
    && (x & 0x10 != 0 <==> y & 0x08 != 0)
    && (x & 0x20 != 0 <==> y & 0x04 != 0)
    && (x & 0x40 != 0 <==> y & 0x02 != 0)
    && (x & 0x80 != 0 <==> y & 0x01 != 0)
  }

  lemma ByteMirrorAt(x: bv32, y: bv32, i: nat)
    requires i < 8 && ByteMirror(x, y)
    ensures ByteBit(x, i) == ByteBit(y, 7 - i)
  {}

  lemma BitReverseBytes(n: bv32)
    ensures ByteMirror(BitReverse(n), n >> 24) && ByteMirror(BitReverse(n) >> 8, n >> 16)
    ensures ByteMirror(BitReverse(n) >> 16, n >> 8) && ByteMirror(BitReverse(n) >> 24, n)
  {}

  lemma BitReverseMirrors(n: bv32, r: bv32, i: nat)
    requires i < 32 && ByteMirror(r, n >> 24) && ByteMirror(r >> 8, n >> 16)
    requires ByteMirror(r >> 16, n >> 8) && ByteMirror(r >> 24, n)
    ensures WordBit(r, i) == WordBit(n, 31 - i)
  {
    if i < 8 {
      ByteMirrorAt(r, n >> 24, i);
    } else if i < 16 {
      ByteMirrorAt(r >> 8, n >> 16, i - 8);
    } else if i < 24 {
      ByteMirrorAt(r >> 16, n >> 8, i - 16);
    } else {
      ByteMirrorAt(r >> 24, n, i - 24);
    }
  }

  lemma MirrorValue(bs: seq<bool>, rs: seq<bool>)
    requires |bs| == |rs| && forall i :: 0 <= i < |rs| ==> rs[i] == bs[|bs| - 1 - i]
    ensures Value(rs) == Reverse(Value(bs), |bs|)
  {
    var v, w := Value(bs), |bs|;
    BitsOfValue(bs);
    forall i | 0 <= i < w
      ensures BitsOf(Reverse(v, w), w)[i] == rs[i]
    {
      ReverseBits(v, w, i);
    }
    assert BitsOf(Reverse(v, w), w) == rs;
    ReverseBound(v, w);
    ValueOfBits(Reverse(v, w), w);
  }

  /** The five masked swaps of bit_reverse compute the reversal of the word's value. */
  lemma BitReverseCorrect(n: bv32)
    ensures Value(WordBits(BitReverse(n))) == Reverse(Value(WordBits(n)), 32)
  {
    var r := BitReverse(n);
    BitReverseBytes(n);
    forall i | 0 <= i < 32
      ensures WordBits(r)[i] == WordBits(n)[31 - i]
    {
      BitReverseMirrors(n, r, i);
    }
    MirrorValue(WordBits(n), WordBits(r));
  }
}
