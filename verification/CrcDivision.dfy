/**
 The page checksum as a remainder: message times x^32, divided by the generator polynomial over the two-element field.
 Polynomials are bit strings, highest power first.
 */
module CrcDivision {
  import opened Crc
  import opened OggWalk

  function Zeros(n: nat): (z: seq<bool>)
    ensures |z| == n && forall i {:trigger z[i]} :: 0 <= i < n ==> !z[i]
  {
    seq(n, _ => false)
  }

  /** The sum, which is also the difference, of two polynomials. */
  function Plus(a: seq<bool>, b: seq<bool>): (s: seq<bool>)
    requires |a| == |b|
    ensures |s| == |a| && forall i {:trigger s[i]} :: 0 <= i < |s| ==> s[i] == (a[i] != b[i])
  {
    seq(|a|, i requires 0 <= i < |a| => a[i] != b[i])
  }

  /** x^32 + x^26 + ... + 1 */
  function Generator(): (g: seq<bool>)
    ensures |g| == 33 && g[0]
  {
    [true] + TopBits(POLY, 32)
  }

  /** The generator or nothing, after `n` zeros. */
  function Multiple(t: bool, n: nat): (m: seq<bool>)
    ensures |m| == n + 33 && m[n] == t && forall i {:trigger m[i]} :: 0 <= i < n ==> !m[i]
  {
    if t then Zeros(n) + Generator() else Zeros(n + 33)
  }

  function TimesGenerator(q: seq<bool>): (p: seq<bool>)
    ensures |p| == |q| + 32
  {
    if q == [] then Zeros(32)
    else
      var n := |q| - 1;
      Plus(TimesGenerator(q[..n]) + [false], Multiple(q[n], n))
  }

  /** Dividing `m` x^32 by the generator leaves quotient `q` and remainder `r`. */
  ghost predicate Divides(m: seq<bool>, q: seq<bool>, r: seq<bool>)
  {
    |q| == |m| && |r| == 32 && m + Zeros(32) == Plus(TimesGenerator(q), Zeros(|m|) + r)
  }

  // ----- the register as a polynomial -----

  lemma {:induction false} TopBitsXor(x: bv32, y: bv32, n: nat)
    ensures TopBits(Xor(x, y), n) == Plus(TopBits(x, n), TopBits(y, n))
    decreases n
  {
    hide Xor, Left, Top;
    if n > 0 {
      XorShifted(x, y);
      TopBitsXor(Left(x), Left(y), n - 1);
    }
  }

  lemma {:induction false} TopBitsMore(w: bv32, n: nat)
    ensures TopBits(w, n + 1) == TopBits(w, n) + [Top(Shifted(w, n))]
    decreases n
  {
    hide Left, Top;
    if n > 0 {
      TopBitsMore(Left(w), n - 1);
      assert TopBits(w, n + 1) == [Top(w)] + TopBits(Left(w), n);
    } else {
      assert TopBits(w, 1) == [Top(w)] + TopBits(Left(w), 0);
    }
  }

  lemma TopBitsTail(w: bv32, n: nat)
    ensures TopBits(w, n + 1) == [Top(w)] + TopBits(Left(w), n)
  {}

  lemma AllShiftedOut(w: bv32)
    ensures Shifted(w, 32) == 0
  {
    hide Shifted, LeftByte;
    ShiftedTwice(w, 8, 24);
    ShiftedEight(w);
    ShiftedTwice(LeftByte(w), 8, 16);
    ShiftedEight(LeftByte(w));
    ShiftedTwice(LeftByte(LeftByte(w)), 8, 8);
    ShiftedEight(LeftByte(LeftByte(w)));
    ShiftedEight(LeftByte(LeftByte(LeftByte(w))));
    FourBytes(w);
  }

  lemma FourBytes(w: bv32)
    ensures LeftByte(LeftByte(LeftByte(LeftByte(w)))) == 0
  {}

  lemma NoTop()
    ensures !Top(0)
  {}

  lemma DropFirst(a: bool, s: seq<bool>, r: seq<bool>, b: bool)
    requires [a] + s == r + [b] && r != []
    ensures s == r[1..] + [b]
  {
    assert ([a] + s)[1..] == s && (r + [b])[1..] == r[1..] + [b];
  }

  /** Shifting the register multiplies by x and drops the highest power. */
  lemma RegisterLeft(w: bv32)
    ensures TopBits(Left(w), 32) == TopBits(w, 32)[1..] + [false]
  {
    TopBitsMore(w, 32);
    AllShiftedOut(w);
    NoTop();
    TopBitsTail(w, 32);
    hide Left, Top, Shifted, TopBits;
    var r := TopBits(w, 32);
    assert r + [false] == [Top(w)] + TopBits(Left(w), 32);
    DropFirst(Top(w), TopBits(Left(w), 32), r, false);
  }

  lemma {:induction false} NoBits(n: nat)
    ensures TopBits(0, n) == Zeros(n)
    decreases n
  {
    if n > 0 {
      LeftZero();
      NoTop();
      hide Left, Top;
      NoBits(n - 1);
    }
  }

  lemma LeftZero()
    ensures Left(0) == 0
  {}

  lemma FirstIsTop(w: bv32)
    ensures TopBits(w, 32)[0] == Top(w)
  {}

  lemma RegisterStep(w: bv32, bit: bool)
    ensures var r := TopBits(w, 32);
      TopBits(SerialBit(w, bit), 32) == Plus(r[1..] + [false], if r[0] != bit then TopBits(POLY, 32) else Zeros(32))
  {
    hide Left, Top, Xor, TopBits;
    FirstIsTop(w);
    RegisterLeft(w);
    TopBitsXor(Left(w), Feedback(Top(w) != bit), 32);
    NoBits(32);
  }

  // ----- division, bit by bit -----

  lemma DivideStep(m: seq<bool>, q: seq<bool>, r: seq<bool>, bit: bool, r': seq<bool>)
    requires Divides(m, q, r)
    requires r' == Plus(r[1..] + [false], if r[0] != bit then TopBits(POLY, 32) else Zeros(32))
    ensures Divides(m + [bit], q + [r[0] != bit], r')
  {
    hide TopBits;
    var n, t := |m|, r[0] != bit;
    var p := TimesGenerator(q);
    assert (q + [t])[..n] == q;
    assert TimesGenerator(q + [t]) == Plus(p + [false], Multiple(t, n));
    hide TimesGenerator;
    assert forall i {:trigger p[i]} :: 0 <= i < n + 32 ==> (m + Zeros(32))[i] == (p[i] != (Zeros(n) + r)[i]);
    var lhs, rhs := (m + [bit]) + Zeros(32), Plus(TimesGenerator(q + [t]), Zeros(n + 1) + r');
    forall i | 0 <= i < n + 33 ensures lhs[i] == rhs[i] {
      if i < n {
        assert p[i] == m[i];
      } else if i == n {
        assert p[i] == r[0];
      } else if i < n + 32 {
        assert p[i] == r[i - n];
      }
    }
  }

  function LongQuotient(m: seq<bool>): (q: seq<bool>)
    ensures |q| == |m|
  {
    if m == [] then []
    else
      var n := |m| - 1;
      LongQuotient(m[..n]) + [Top(Serial(0, m[..n])) != m[n]]
  }

  lemma {:induction false} SerialDivides(m: seq<bool>)
    ensures Divides(m, LongQuotient(m), TopBits(Serial(0, m), 32))
    decreases |m|
  {
    hide TopBits, Top, SerialBit;
    if m == [] {
      NoBits(32);
      assert m + Zeros(32) == Plus(TimesGenerator([]), Zeros(0) + Zeros(32));
    } else {
      var n := |m| - 1;
      var w := Serial(0, m[..n]);
      SerialDivides(m[..n]);
      FirstIsTop(w);
      RegisterStep(w, m[n]);
      assert m == m[..n] + [m[n]];
      SerialConcat(0, m[..n], [m[n]]);
      assert Serial(w, [m[n]]) == SerialBit(w, m[n]) by { assert Serial(SerialBit(w, m[n]), []) == SerialBit(w, m[n]); }
      DivideStep(m[..n], LongQuotient(m[..n]), TopBits(w, 32), m[n], TopBits(Serial(0, m), 32));
    }
  }

  // ----- quotient and remainder are unique -----

  /** The leading coefficients of a product: the last bit of the factor decides only one of them. */
  lemma LeadingBits(q: seq<bool>, i: nat)
    requires i < |q|
    ensures TimesGenerator(q)[i] == if i < |q| - 1 then TimesGenerator(q[..|q| - 1])[i] else TimesGenerator(q[..|q| - 1])[i] != q[i]
  {
    hide TopBits, Generator, Multiple, Plus, Zeros;
    var n := |q| - 1;
    var p0 := TimesGenerator(q[..n]);
    assert TimesGenerator(q) == Plus(p0 + [false], Multiple(q[n], n));
    assert (p0 + [false])[i] == p0[i];
  }

  lemma {:induction false} QuotientUnique(q: seq<bool>, q': seq<bool>)
    requires |q| == |q'| && TimesGenerator(q)[..|q|] == TimesGenerator(q')[..|q|]
    ensures q == q'
    decreases |q|
  {
    hide TimesGenerator;
    if q != [] {
      var n := |q| - 1;
      var p, p' := TimesGenerator(q), TimesGenerator(q');
      forall i | 0 <= i <= n
        ensures p[i] == p'[i]
      {
        assert p[..n + 1][i] == p'[..n + 1][i];
      }
      forall i | 0 <= i < n
        ensures TimesGenerator(q[..n])[i] == TimesGenerator(q'[..n])[i]
      {
        LeadingBits(q, i);
        LeadingBits(q', i);
      }
      QuotientUnique(q[..n], q'[..n]);
      LeadingBits(q, n);
      LeadingBits(q', n);
      assert q == q[..n] + [q[n]] && q' == q'[..n] + [q'[n]];
    }
  }

  lemma RemainderUnique(m: seq<bool>, q: seq<bool>, r: seq<bool>, q': seq<bool>, r': seq<bool>)
    requires Divides(m, q, r) && Divides(m, q', r')
    ensures q == q' && r == r'
  {
    hide TimesGenerator;
    var p, p', n := TimesGenerator(q), TimesGenerator(q'), |m|;
    forall i | 0 <= i < n + 32
      ensures (m + Zeros(32))[i] == (p[i] != (Zeros(n) + r)[i]) && (m + Zeros(32))[i] == (p'[i] != (Zeros(n) + r')[i])
    {
      assert Plus(p, Zeros(n) + r)[i] == Plus(p', Zeros(n) + r')[i];
    }
    assert p[..n] == p'[..n] by {
      assert forall i {:trigger p[i]} :: 0 <= i < n ==> p[i] == m[i] == p'[i];
    }
    QuotientUnique(q, q');
    forall k | 0 <= k < 32 ensures r[k] == r'[k] {
      assert r[k] == (Zeros(n) + r)[n + k] && r'[k] == (Zeros(n) + r')[n + k];
    }
  }

  /** The table-driven checksum is the remainder of the message, and nothing else is. */
  lemma CrcIsRemainder(t: seq<bv32>, message: seq<Byte>, r: seq<bool>)
    requires IsTable(t)
    ensures (exists q :: Divides(MessageBits(message), q, r)) <==> r == TopBits(CrcOf(t, message), 32)
  {
    assert |t| == 256;
    hide TimesGenerator, TopBits, Divides, IsTable;
    var m := MessageBits(message);
    CrcIsSerial(t, 0, message);
    SerialDivides(m);
    if q :| Divides(m, q, r) {
      RemainderUnique(m, q, r, LongQuotient(m), TopBits(Serial(0, m), 32));
    }
  }

  // ----- the generator -----

  /** Four bits of the polynomial at a time. */
  lemma TopFour(w: bv32, n: nat)
    requires n >= 4
    ensures TopBits(w, n) == [w & 0x8000_0000 != 0, w & 0x4000_0000 != 0, w & 0x2000_0000 != 0, w & 0x1000_0000 != 0] + TopBits(w << 4, n - 4)
  {
    FourTops(w);
    hide TopBits, Top, Left;
    TopOne(w, n);
    TopOne(Left(w), n - 1);
    TopOne(Left(Left(w)), n - 2);
    TopOne(Left(Left(Left(w))), n - 3);
  }

  lemma TopOne(w: bv32, n: nat)
    requires n > 0
    ensures TopBits(w, n) == [Top(w)] + TopBits(Left(w), n - 1)
  {}

  lemma FourTops(w: bv32)
    ensures Top(w) == (w & 0x8000_0000 != 0) && Top(Left(w)) == (w & 0x4000_0000 != 0)
    ensures Top(Left(Left(w))) == (w & 0x2000_0000 != 0) && Top(Left(Left(Left(w)))) == (w & 0x1000_0000 != 0)
    ensures Left(Left(Left(Left(w)))) == w << 4
  {}

  /** x^32 + x^26 + x^23 + x^22 + x^16 + x^12 + x^11 + x^10 + x^8 + x^7 + x^5 + x^4 + x^2 + x + 1, highest power first. */
  lemma GeneratorTerms()
    ensures Generator() == [true]
      + [false, false, false, false] + [false, true, false, false] + [true, true, false, false] + [false, false, false, true]
      + [false, false, false, true] + [true, true, false, true] + [true, false, true, true] + [false, true, true, true]
  {
    TopFour(0x04c1_1db7, 32);
    TopFour(0x4c11_db70, 28);
    TopFour(0xc11d_b700, 24);
    TopFour(0x11db_7000, 20);
    TopFour(0x1db7_0000, 16);
    TopFour(0xdb70_0000, 12);
    TopFour(0xb700_0000, 8);
    TopFour(0x7000_0000, 4);
    assert TopBits(0, 0) == [];
    hide TopBits;
  }
}
