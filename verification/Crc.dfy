/** The page checksum (RFC 3533, section 6): a table, its definition bit by bit, and why they agree. */
module Crc {
  import opened OggWalk

  const POLY: bv32 := 0x04c11db7

  function Xor(x: bv32, y: bv32): bv32
  {
    x ^ y
  }

  /** A byte at the top of the register. */
  function AtTop(b: bv32): bv32
  {
    b << 24
  }

  function LeftByte(x: bv32): bv32
  {
    x << 8
  }

  function LeftNibble(x: bv32): bv32
  {
    x << 4
  }

  function Left(x: bv32): bv32
  {
    x << 1
  }

  predicate Top(x: bv32)
  {
    x >= 0x8000_0000
  }

  function Feedback(b: bool): bv32
  {
    if b then POLY else 0
  }

  /** One bit of division of the register: shift left, and subtract the polynomial when a bit falls out. */
  function Round(s: bv32): bv32
  {
    Xor(Left(s), Feedback(Top(s)))
  }

  function Rounds(s: bv32, n: nat): bv32
    decreases n
  {
    if n == 0 then s else Rounds(Round(s), n - 1)
  }

  /** Bit-at-a-time division: the next message bit meets the bit that falls out. */
  function SerialBit(crc: bv32, bit: bool): bv32
  {
    Xor(Left(crc), Feedback(Top(crc) != bit))
  }

  function Serial(crc: bv32, bits: seq<bool>): bv32
    decreases |bits|
  {
    if bits == [] then crc else Serial(SerialBit(crc, bits[0]), bits[1..])
  }

  /** The highest `n` bits of a word, highest first. */
  function TopBits(w: bv32, n: nat): (bits: seq<bool>)
    ensures |bits| == n
    decreases n
  {
    if n == 0 then [] else [Top(w)] + TopBits(Left(w), n - 1)
  }

  /** The eight bits of a byte, highest first. */
  function ByteBits(b: bv32): (bits: seq<bool>)
    ensures |bits| == 8
  {
    TopBits(AtTop(b), 8)
  }

  // ----- the table -----

  /** What becomes of a byte after eight rounds at the top of the register. */
  function Entry(x: bv32): bv32
  {
    Rounds(AtTop(x), 8)
  }

  ghost predicate IsTable(t: seq<bv32>)
  {
    |t| == 256 && forall i {:trigger t[i]} :: 0 <= i < 256 ==> t[i] == Entry(i as bv32)
  }

  method TableEntry(i: bv32) returns (s: bv32)
    ensures s == Entry(i)
  {
    s := AtTop(i);
    for j := 0 to 8
      invariant Rounds(s, 8 - j) == Entry(i)
    {
      s := Round(s);
    }
  }

  method Crc32Init(table: array<bv32>)
    requires table.Length == 256
    modifies table
    ensures IsTable(table[..])
  {
    for i := 0 to 256
      invariant forall k {:trigger table[k]} :: 0 <= k < i ==> table[k] == Entry(k as bv32)
    {
      table[i] := TableEntry(i as bv32);
    }
  }

  lemma IndexBack(x: bv32)
    ensures x < 256 ==> 0 <= x as int < 256
    ensures (x as int) as bv32 == x
  {}

  function TableIndex(crc: bv32, b: bv32): (i: bv32)
    requires b < 256
    ensures i < 256
  {
    b ^ (crc >> 24)
  }

  function Update(t: seq<bv32>, crc: bv32, b: bv32): bv32
    requires |t| == 256 && b < 256
  {
    IndexBack(TableIndex(crc, b));
    Xor(LeftByte(crc), t[TableIndex(crc, b) as int])
  }

  // ----- the table does eight bits at once -----

  lemma XorLaws(a: bv32, b: bv32, p: bv32, q: bv32)
    ensures Xor(Xor(a, b), Xor(p, q)) == Xor(Xor(a, p), Xor(b, q))
    ensures Xor(Xor(a, b), p) == Xor(Xor(a, p), b)
  {}

  lemma XorShifted(x: bv32, y: bv32)
    ensures Left(Xor(x, y)) == Xor(Left(x), Left(y))
    ensures Top(Xor(x, y)) == (Top(x) != Top(y))
  {}

  lemma FeedbackXor(b: bool, c: bool)
    ensures Feedback(b != c) == Xor(Feedback(b), Feedback(c))
  {}

  lemma RoundXor(x: bv32, y: bv32)
    ensures Round(Xor(x, y)) == Xor(Round(x), Round(y))
    ensures Round(Xor(x, y)) == Xor(SerialBit(x, Top(y)), Left(y))
  {
    hide Xor, Left, Top, Feedback;
    XorShifted(x, y);
    FeedbackXor(Top(x), Top(y));
    XorLaws(Left(x), Left(y), Feedback(Top(x)), Feedback(Top(y)));
    XorLaws(Left(x), Left(y), Feedback(Top(x) != Top(y)), 0);
  }

  lemma {:induction false} RoundsXor(x: bv32, y: bv32, n: nat)
    ensures Rounds(Xor(x, y), n) == Xor(Rounds(x, n), Rounds(y, n))
    decreases n
  {
    hide Xor, Round;
    if n > 0 {
      RoundXor(x, y);
      RoundsXor(Round(x), Round(y), n - 1);
    }
  }

  function Shifted(w: bv32, n: nat): bv32
    decreases n
  {
    if n == 0 then w else Shifted(Left(w), n - 1)
  }

  /** Rounds over a register into which message bits were mixed beforehand take those bits one at a time. */
  lemma {:induction false} RoundsIsSerial(x: bv32, y: bv32, n: nat)
    ensures Rounds(Xor(x, y), n) == Xor(Serial(x, TopBits(y, n)), Shifted(y, n))
    decreases n
  {
    hide Xor, Round, SerialBit, Left, Top;
    if n > 0 {
      RoundXor(x, y);
      RoundsIsSerial(SerialBit(x, Top(y)), Left(y), n - 1);
      assert TopBits(y, n)[1..] == TopBits(Left(y), n - 1);
    }
  }

  lemma {:induction false} ShiftedTwice(w: bv32, m: nat, n: nat)
    ensures Shifted(w, m + n) == Shifted(Shifted(w, m), n)
    decreases m
  {
    hide Left;
    if m > 0 {
      ShiftedTwice(Left(w), m - 1, n);
    }
  }

  lemma ShiftedFour(w: bv32)
    ensures Shifted(w, 4) == LeftNibble(w)
  {
    LeftSteps(w);
    hide Left, LeftNibble;
    assert Shifted(w, 4) == Shifted(Left(Left(w)), 2);
  }

  lemma LeftSteps(w: bv32)
    ensures Left(Left(Left(Left(w)))) == LeftNibble(w)
  {}

  lemma ShiftEight(w: bv32)
    ensures LeftNibble(LeftNibble(w)) == LeftByte(w)
  {}

  lemma ShiftedEight(w: bv32)
    ensures Shifted(w, 8) == LeftByte(w)
  {
    hide Shifted, LeftNibble, LeftByte;
    ShiftedTwice(w, 4, 4);
    ShiftedFour(w);
    ShiftedFour(LeftNibble(w));
    ShiftEight(w);
  }

  lemma ShiftedOut(b: bv32)
    requires b < 256
    ensures LeftByte(AtTop(b)) == 0
  {}

  /** Nothing falls out in `n` shifts. */
  predicate Clear(w: bv32, n: nat)
    decreases n
  {
    n == 0 || (!Top(w) && Clear(Left(w), n - 1))
  }

  lemma RoundClear(w: bv32)
    requires !Top(w)
    ensures Round(w) == Left(w)
  {
    hide Left, Top, Xor;
    XorZero(Left(w));
  }

  lemma XorZero(x: bv32)
    ensures Xor(x, 0) == x
  {}

  lemma {:induction false} RoundsClear(w: bv32, n: nat)
    requires Clear(w, n)
    ensures Rounds(w, n) == Shifted(w, n)
    decreases n
  {
    hide Left, Top, Round;
    if n > 0 {
      RoundClear(w);
      RoundsClear(Left(w), n - 1);
    }
  }

  lemma {:induction false} ClearTwice(w: bv32, m: nat, n: nat)
    requires Clear(w, m) && Clear(Shifted(w, m), n)
    ensures Clear(w, m + n)
    decreases m
  {
    hide Left, Top;
    if m > 0 {
      ClearTwice(Left(w), m - 1, n);
    }
  }

  lemma TopsClear(w: bv32)
    requires w < 0x1000_0000
    ensures !Top(w) && !Top(Left(w)) && !Top(Left(Left(w))) && !Top(Left(Left(Left(w))))
  {}

  lemma ClearFour(w: bv32)
    requires w < 0x1000_0000
    ensures Clear(w, 4)
  {
    TopsClear(w);
    hide Left, Top;
    assert Clear(Left(Left(w)), 2);
  }

  lemma LowByteBounds(w: bv32)
    requires w < 0x0100_0000
    ensures w < 0x1000_0000 && LeftNibble(w) < 0x1000_0000
  {}

  lemma ClearByte(w: bv32)
    requires w < 0x0100_0000
    ensures Rounds(w, 8) == LeftByte(w)
  {
    LowByteBounds(w);
    hide Clear, Rounds, Shifted, LeftNibble, LeftByte;
    ClearFour(w);
    ShiftedFour(w);
    ClearFour(LeftNibble(w));
    ClearTwice(w, 4, 4);
    RoundsClear(w, 8);
    ShiftedEight(w);
  }

  function LowBytes(crc: bv32): bv32
  {
    crc & 0x00FF_FFFF
  }

  lemma SplitRegister(crc: bv32, b: bv32)
    requires b < 256
    ensures Xor(LowBytes(crc), AtTop(TableIndex(crc, b))) == Xor(crc, AtTop(b))
    ensures LeftByte(LowBytes(crc)) == LeftByte(crc) && LowBytes(crc) < 0x0100_0000
  {}

  lemma UpdateIsRounds(t: seq<bv32>, crc: bv32, b: bv32)
    requires IsTable(t) && b < 256
    ensures Update(t, crc, b) == Xor(LeftByte(crc), Entry(TableIndex(crc, b)))
  {
    hide Entry;
    IndexBack(TableIndex(crc, b));
  }

  lemma UpdateIsSerial(t: seq<bv32>, crc: bv32, b: bv32)
    requires IsTable(t) && b < 256
    ensures Update(t, crc, b) == Serial(crc, ByteBits(b))
  {
    UpdateIsRounds(t, crc, b);
    SplitRegister(crc, b);
    ShiftedOut(b);
    hide Xor, Rounds, Serial, TopBits, Shifted, Update, IsTable, AtTop, LeftByte, LowBytes, TableIndex;
    ClearByte(LowBytes(crc));
    RoundsXor(LowBytes(crc), AtTop(TableIndex(crc, b)), 8);
    RoundsIsSerial(crc, AtTop(b), 8);
    ShiftedEight(AtTop(b));
    XorZero(Serial(crc, TopBits(AtTop(b), 8)));
  }

  // ----- whole messages -----

  function AsWord(b: Byte): (w: bv32)
    ensures w < 256
  {
    b as bv32
  }

  function CrcOf(t: seq<bv32>, message: seq<Byte>): bv32
    requires |t| == 256
  {
    CrcFrom(t, 0, message)
  }

  function CrcFrom(t: seq<bv32>, crc: bv32, message: seq<Byte>): bv32
    requires |t| == 256
    decreases |message|
  {
    if message == [] then crc else CrcFrom(t, Update(t, crc, AsWord(message[0])), message[1..])
  }

  function MessageBits(message: seq<Byte>): (bits: seq<bool>)
    ensures |bits| == 8 * |message|
  {
    if message == [] then [] else ByteBits(AsWord(message[0])) + MessageBits(message[1..])
  }

  lemma {:induction false} SerialConcat(crc: bv32, p: seq<bool>, q: seq<bool>)
    ensures Serial(crc, p + q) == Serial(Serial(crc, p), q)
    decreases |p|
  {
    hide SerialBit;
    if p == [] {
      assert p + q == q;
    } else {
      assert (p + q)[1..] == p[1..] + q;
      SerialConcat(SerialBit(crc, p[0]), p[1..], q);
    }
  }

  /** Byte by byte with the table, or bit by bit: the same checksum. */
  lemma {:induction false} CrcIsSerial(t: seq<bv32>, crc: bv32, message: seq<Byte>)
    requires IsTable(t)
    ensures CrcFrom(t, crc, message) == Serial(crc, MessageBits(message))
    decreases |message|
  {
    assert |t| == 256;
    hide IsTable, Update, ByteBits;
    if message != [] {
      var b := AsWord(message[0]);
      UpdateIsSerial(t, crc, b);
      CrcIsSerial(t, Update(t, crc, b), message[1..]);
      SerialConcat(crc, ByteBits(b), MessageBits(message[1..]));
    }
  }

  lemma {:induction false} CrcConcat(t: seq<bv32>, crc: bv32, m: seq<Byte>, n: seq<Byte>)
    requires |t| == 256
    ensures CrcFrom(t, crc, m + n) == CrcFrom(t, CrcFrom(t, crc, m), n)
    decreases |m|
  {
    hide Update;
    if m == [] {
      assert m + n == n;
    } else {
      assert (m + n)[1..] == m[1..] + n;
      CrcConcat(t, Update(t, crc, AsWord(m[0])), m[1..], n);
    }
  }
}
