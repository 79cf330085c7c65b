/** The packet as one string of bits, least significant bit of each byte first (Vorbis I, section 2.1). */
module BitString {
  import opened Bits
  import opened CodeTree
  import opened CodeMap
  import opened OggWalk

  function PayloadBits(bytes: seq<Byte>): (r: seq<bool>)
    ensures |r| == 8 * |bytes|
  {
    if bytes == [] then [] else BitsOf(bytes[0], 8) + PayloadBits(bytes[1..])
  }

  function Zeros(n: nat): (r: seq<bool>)
    ensures |r| == n && forall i :: 0 <= i < n ==> !r[i]
  {
    seq(n, _ => false)
  }

  /** Packs bits into bytes, filling the last byte with zeros. */
  function Pack(bits: seq<bool>): (r: seq<Byte>)
    ensures |r| == (|bits| + 7) / 8
  {
    if bits == [] then []
    else if |bits| < 8 then ByteBound(bits + Zeros(8 - |bits|)); [Value(bits + Zeros(8 - |bits|))]
    else ByteBound(bits[..8]); [Value(bits[..8])] + Pack(bits[8..])
  }

  lemma ByteBound(bits: seq<bool>)
    requires |bits| == 8
    ensures Value(bits) < 256
  {
    ValueBound(bits);
    Pow2Values();
  }

  lemma {:induction false} PackRoundTrip(bits: seq<bool>)
    ensures PayloadBits(Pack(bits)) == bits + Zeros(8 * |Pack(bits)| - |bits|)
  {
    if bits != [] {
      if |bits| < 8 {
        BitsOfValue(bits + Zeros(8 - |bits|));
      } else {
        PackRoundTrip(bits[8..]);
        BitsOfValue(bits[..8]);
        assert bits == bits[..8] + bits[8..];
      }
    }
  }

  /** The bits by which an entry is coded. */
  function CodeBits(n: Node): (r: seq<bool>)
    ensures |r| == n.len
  {
    BitsOf(Reverse(n.start, 32), n.len)
  }

  /** The next 32 bits, padded with zeros past the end of the packet, as a word. */
  ghost function Ahead32(bits: seq<bool>): nat
  {
    Value(Padded(bits))
  }

  ghost function Padded(bits: seq<bool>): (r: seq<bool>)
    ensures |r| == 32
  {
    (bits + Zeros(32))[..32]
  }

  lemma Ahead32Bits(bits: seq<bool>)
    ensures Ahead32(bits) < WORD && BitsOf(Ahead32(bits), 32) == Padded(bits)
  {
    ValueBound(Padded(bits));
    Pow2Values();
    BitsOfValue(Padded(bits));
  }

  lemma BitsInjective(a: nat, b: nat, w: nat)
    requires a < Pow2(w) && b < Pow2(w) && BitsOf(a, w) == BitsOf(b, w)
    ensures a == b
  {
    ValueOfBits(a, w);
    ValueOfBits(b, w);
  }

  /** A word matches a codeword exactly when its bits begin with the codeword's. */
  lemma MatchIsPrefix(n: Node, x: nat, v: nat)
    requires IsNode(n) && n.len <= v
    ensures Matches(n, x) <==> BitsOf(x, v)[..n.len] == CodeBits(n)
  {
    CodewordBound(n);
    var q, r := QuotRem(x, Pow2(n.len));
    SplitAt(x, q, r, n.len, v);
    if BitsOf(x, v)[..n.len] == CodeBits(n) {
      BitsInjective(r, Codeword(n), n.len);
    }
  }

  lemma {:induction false} BitsOfSmall(a: nat, v: nat, w: nat)
    requires v <= w && a < Pow2(v)
    ensures BitsOf(a, w) == BitsOf(a, v) + Zeros(w - v)
  {
    BitsJoin(a, 0, v, w);
    BitsOfZero(w - v);
  }

  lemma {:induction false} BitsOfZero(w: nat)
    ensures BitsOf(0, w) == Zeros(w)
  {
    if w > 0 {
      BitsOfZero(w - 1);
    }
  }

  /** The accumulator `a` of `v` bits shows the front of `bits`. */
  ghost predicate Shows(a: nat, v: nat, bits: seq<bool>)
  {
    v <= |bits| && v <= 32 && a < Pow2(v) && BitsOf(a, v) == bits[..v]
  }

  /** As far as its bits go, or to the end of the packet, the accumulator matches what the packet matches. */
  lemma ShownMatch(n: Node, a: nat, v: nat, bits: seq<bool>)
    requires IsNode(n) && Shows(a, v, bits) && (n.len <= v || v == |bits|)
    ensures Matches(n, a) <==> Matches(n, Ahead32(bits))
  {
    Ahead32Bits(bits);
    MatchIsPrefix(n, Ahead32(bits), 32);
    if n.len <= v {
      MatchIsPrefix(n, a, v);
      assert Padded(bits)[..n.len] == bits[..v][..n.len];
    } else {
      BitsOfSmall(a, v, 32);
      assert bits[..v] == bits;
      assert BitsOf(a, 32) == Padded(bits);
      MatchIsPrefix(n, a, 32);
    }
  }

  /** A codeword that fits in the packet is ahead exactly when the packet's bits begin with it. */
  lemma AheadIsPrefix(n: Node, bits: seq<bool>)
    requires IsNode(n) && n.len <= |bits|
    ensures Matches(n, Ahead32(bits)) <==> CodeBits(n) <= bits
  {
    Ahead32Bits(bits);
    MatchIsPrefix(n, Ahead32(bits), 32);
    assert Padded(bits)[..n.len] == bits[..n.len];
  }

  // ----- how the accumulator changes -----

  /** `z << k` */
  function ShiftLeft(z: nat, k: nat): nat
  {
    if k == 0 then z else 2 * ShiftLeft(z, k - 1)
  }

  lemma {:induction false} ShiftLeftIsProduct(z: nat, k: nat)
    ensures ShiftLeft(z, k) == z * Pow2(k)
  {
    if k > 0 {
      ShiftLeftIsProduct(z, k - 1);
      Associate(z, 2, Pow2(k - 1));
      Associate(2, z, Pow2(k - 1));
    }
  }

  lemma ScaleBound(d: int, m: nat)
    requires d >= 0
    ensures d * m >= 0
  {}

  lemma ByteAbove(a: nat, v: nat, z: Byte)
    requires a < Pow2(v)
    ensures a + ShiftLeft(z, v) < Pow2(v + 8)
    ensures BitsOf(a + ShiftLeft(z, v), v + 8) == BitsOf(a, v) + BitsOf(z, 8)
  {
    ShiftLeftIsProduct(z, v);
    BitsJoin(a, z, v, v + 8);
    Pow2Add(v, 8);
    Pow2Values();
    Distribute(255, z, Pow2(v));
    Distribute(255, 1, Pow2(v));
    ScaleBound(255 - z, Pow2(v));
  }

  /** The bits held in an accumulator of `v` bits and in the bytes after it. */
  function Held(a: nat, v: nat, bytes: seq<Byte>): seq<bool>
  {
    BitsOf(a, v) + PayloadBits(bytes)
  }

  /** Appending the next byte above the valid bits. */
  lemma HeldByte(a: nat, v: nat, bytes: seq<Byte>)
    requires a < Pow2(v) && bytes != []
    ensures a + ShiftLeft(bytes[0], v) < Pow2(v + 8)
    ensures Held(a, v, bytes) == Held(a + ShiftLeft(bytes[0], v), v + 8, bytes[1..])
  {
    ByteAbove(a, v, bytes[0]);
  }

  /** `a >> k` */
  function ShiftRight(a: nat, k: nat): nat
  {
    if k == 0 then a else ShiftRight(a / 2, k - 1)
  }

  /** `a & ((1 << k) - 1)` */
  function LowBits(a: nat, k: nat): nat
  {
    if k == 0 then 0 else a % 2 + 2 * LowBits(a / 2, k - 1)
  }

  lemma {:induction false} ShiftAndMask(a: nat, k: nat)
    ensures a == ShiftRight(a, k) * Pow2(k) + LowBits(a, k) && LowBits(a, k) < Pow2(k)
  {
    if k > 0 {
      ShiftAndMask(a / 2, k - 1);
      Associate(ShiftRight(a, k), 2, Pow2(k - 1));
      Associate(2, ShiftRight(a, k), Pow2(k - 1));
    }
  }

  lemma LowBitsIsMod(a: nat, k: nat)
    ensures LowBits(a, k) == a % Pow2(k)
  {
    ShiftAndMask(a, k);
    DivUnique(a, Pow2(k), ShiftRight(a, k), LowBits(a, k));
  }

  /** Dropping `k` valid bits. */
  lemma ShiftOut(a: nat, v: nat, k: nat)
    requires k <= v && a < Pow2(v)
    ensures ShiftRight(a, k) < Pow2(v - k)
    ensures BitsOf(a, v)[k..] == BitsOf(ShiftRight(a, k), v - k)
    ensures BitsOf(a, v)[..k] == BitsOf(LowBits(a, k), k) && LowBits(a, k) < Pow2(k)
  {
    var q, r := ShiftRight(a, k), LowBits(a, k);
    ShiftAndMask(a, k);
    SplitAt(a, q, r, k, v);
    Pow2Add(v - k, k);
    QuotientBound(a, q, r, Pow2(v - k), Pow2(k));
  }

  lemma QuotientBound(a: nat, q: nat, r: nat, c: nat, m: nat)
    requires a == q * m + r && a < c * m
    ensures q < c
  {
    if q >= c {
      Distribute(q, c, m);
      ScaleBound(q - c, m);
    }
  }

  lemma {:induction false} ValueConcat(a: seq<bool>, b: seq<bool>)
    ensures Value(a + b) == Value(a) + ShiftLeft(Value(b), |a|)
  {
    if a == [] {
      assert a + b == b;
    } else {
      ValueConcat(a[1..], b);
      assert (a + b)[1..] == a[1..] + b;
      assert ShiftLeft(Value(b), |a|) == 2 * ShiftLeft(Value(b), |a[1..]|);
    }
  }

  /** What a read of `n` bits delivers: short reads give zero, or the 24 bits a long one got first. */
  ghost function ReadValue(bits: seq<bool>, n: nat): nat
  {
    if n <= |bits| then Value(bits[..n]) else if n > 24 && |bits| >= 24 then Value(bits[..24]) else 0
  }

  /** A read of more than 24 bits is a read of 24 and one of the rest. */
  lemma LongRead(bits: seq<bool>, n: nat)
    requires 24 < n <= 32 && |bits| >= 24
    ensures ReadValue(bits, n) == Value(bits[..24]) + ShiftLeft(ReadValue(bits[24..], n - 24), 24)
  {
    if n <= |bits| {
      ValueConcat(bits[..24], bits[24..][..n - 24]);
      assert bits[..n] == bits[..24] + bits[24..][..n - 24];
    } else {
      ShiftLeftIsProduct(0, 24);
    }
  }
}
