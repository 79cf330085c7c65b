/** Reading the current packet bit by bit through the 32-bit accumulator. */
module BitReader {
  import opened Bits
  import opened OggWalk
  import opened OggReader
  import opened BitString

  const INVALID_BITS: int := -1

  /** The accumulator holds its valid bits and nothing above them, unless it is empty. */
  ghost predicate Tidy(f: Vorb)
    reads f`pos, f`segmentCount, f`nextSeg, f`acc, f`validBits
  {
    f.Valid() && 0 <= f.validBits <= 32 && (f.validBits > 0 ==> f.acc < Pow2(f.validBits))
  }

  /** A read past the end of the packet left its mark: no byte is left, and what the accumulator holds is no longer valid. */
  ghost predicate Spent(f: Vorb)
    reads f`pos, f`segmentCount, f`nextSeg, f`acc, f`validBits, f`lastSeg, f`bytesInSeg
  {
    f.Valid() && f.validBits == INVALID_BITS && f.lastSeg && f.bytesInSeg == 0 && f.acc < Pow2(32)
  }

  ghost function Unread(acc: nat, validBits: nat, p: Packet): seq<bool>
  {
    Held(acc, validBits, if p.Whole? then p.payload else [])
  }

  /** The bits of the packet that have not been read: first those in the accumulator, then those of the unread bytes. */
  ghost function BitsLeft(f: Vorb): seq<bool>
    requires f.Valid() && f.validBits >= 0
    reads f, f.segments
  {
    Unread(f.acc, f.validBits, f.PacketRest())
  }

  ghost predicate Sound(f: Vorb)
    requires f.Valid()
    reads f, f.segments
  {
    f.PacketRest().Whole?
  }

  /** How many bits the accumulator holds after it has been refilled. */
  function Reach(v: nat, total: nat): nat
  {
    if v > 24 then v
    else
      var full := v + 8 * ((32 - v) / 8);
      if total <= full then total else full
  }

  /** Puts one more byte above the valid bits; EOP leaves the accumulator alone. */
  method PullByte(f: Vorb) returns (z: int)
    requires Tidy(f) && f.validBits <= 24 && (f.validBits == 0 ==> f.acc == 0)
    modifies f`acc, f`validBits, f`pos, f`eof, f`error, f`pageFlag, f`segmentCount, f`nextSeg, f`lastSeg, f`bytesInSeg, f.segments
    ensures Tidy(f) && (z == EOP || 0 <= z < 256)
    ensures z == EOP ==> f.validBits == old(f.validBits) && f.acc == old(f.acc)
    ensures z != EOP ==> f.validBits == old(f.validBits) + 8
    ensures old(Sound(f)) ==>
      && Sound(f) && BitsLeft(f) == old(BitsLeft(f)) && f.eof == old(f.eof)
      && f.PacketRest().end == old(f.PacketRest()).end
      && (z == EOP ==> |BitsLeft(f)| == f.validBits && f.pos == f.PacketRest().end && f.lastSeg && f.bytesInSeg == 0)
  {
    hide Vorb.PacketRest, Unread;
    ghost var a, v, was := f.acc, f.validBits, f.PacketRest();
    z := f.Get8PacketRaw();
    ghost var rest := f.PacketRest();
    if z == EOP {
      NothingToPull(a, v, was);
    } else {
      ByteAbove(a, v, z);
      PulledByte(a, v, z, was, rest);
      f.acc := f.acc + ShiftLeft(z, f.validBits);
      f.validBits := f.validBits + 8;
      assert f.PacketRest() == rest;
    }
  }

  lemma NothingToPull(a: nat, v: nat, p: Packet)
    ensures p.Whole? && p.payload == [] ==> |Unread(a, v, p)| == v
  {}

  lemma PulledByte(a: nat, v: nat, z: Byte, was: Packet, rest: Packet)
    requires a < Pow2(v)
    requires was.Whole? ==> was.payload != [] && z == was.payload[0] && rest == Whole(was.payload[1..], was.end)
    ensures was.Whole? ==> Unread(a + ShiftLeft(z, v), v + 8, rest) == Unread(a, v, was)
  {
    if was.Whole? {
      HeldByte(a, v, was.payload);
    }
  }

  /** What refilling and reading leave in place: the unread bits, the end of the packet, and no read past the stream. */
  ghost predicate SamePacket(p: Packet, eof: bool, f: Vorb)
    requires f.Valid()
    reads f, f.segments
  {
    p.Whole? ==> Sound(f) && f.PacketRest().end == p.end && f.eof == eof
  }

  /** An accumulator without valid bits starts again from zero. */
  method ClearIfEmpty(f: Vorb)
    requires Tidy(f) || Spent(f)
    modifies f`acc
    ensures f.PacketRest() == old(f.PacketRest())
    ensures if old(Tidy(f)) then Tidy(f) && (f.validBits == 0 ==> f.acc == 0) && BitsLeft(f) == old(BitsLeft(f)) else Spent(f)
  {
    hide Vorb.PacketRest, Pow2;
    ghost var p := f.PacketRest();
    if f.validBits == 0 {
      f.acc := 0;
    }
    assert f.PacketRest() == p;
  }

  /** Refills the accumulator with as many bits as it can take, or as the packet has; after a read past the end it does nothing. */
  method PrepHuffman(f: Vorb)
    requires Tidy(f) || Spent(f)
    modifies f`acc, f`validBits, f`pos, f`eof, f`error, f`pageFlag, f`segmentCount, f`nextSeg, f`lastSeg, f`bytesInSeg, f.segments
    ensures f.Valid() && (old(Tidy(f)) ==> Tidy(f) && (f.validBits == 0 ==> f.acc == 0))
    ensures SamePacket(old(f.PacketRest()), old(f.eof), f)
    ensures old(Tidy(f)) && old(Sound(f)) ==>
      && BitsLeft(f) == old(BitsLeft(f))
      && f.validBits == Reach(old(f.validBits), |BitsLeft(f)|)
    ensures old(Spent(f)) ==> Spent(f) && f.pos == old(f.pos)
  {
    hide Vorb.PacketRest, Pow2, Held, Unread;
    ghost var v, tidy := f.validBits, Tidy(f);
    ghost var bits := if tidy && Sound(f) then BitsLeft(f) else [];
    if f.validBits <= 24 {
      ClearIfEmpty(f);
      if tidy {
        HeldLength(f);
      }
      ghost var k := 0;
      var more := true;
      while more && f.validBits <= 24
        invariant f.validBits == v + 8 * k
        invariant if tidy then Tidy(f) && (f.validBits == 0 ==> f.acc == 0) else Spent(f) && f.pos == old(f.pos)
        invariant SamePacket(old(f.PacketRest()), old(f.eof), f)
        invariant tidy && old(Sound(f)) ==> BitsLeft(f) == bits && |bits| >= f.validBits && (!more ==> |bits| == f.validBits)
        decreases more, 32 - f.validBits
      {
        more := Refill(f);
        if more {
          k := k + 1;
        }
      }
    }
  }

  /** One step of the refill: stops at the last byte of the packet. */
  method Refill(f: Vorb) returns (more: bool)
    requires (Tidy(f) && f.validBits <= 24 && (f.validBits == 0 ==> f.acc == 0)) || Spent(f)
    modifies f`acc, f`validBits, f`pos, f`eof, f`error, f`pageFlag, f`segmentCount, f`nextSeg, f`lastSeg, f`bytesInSeg, f.segments
    ensures f.Valid() && f.validBits == old(f.validBits) + if more then 8 else 0
    ensures !more ==> f.acc == old(f.acc)
    ensures SamePacket(old(f.PacketRest()), old(f.eof), f)
    ensures old(Tidy(f)) ==> Tidy(f)
    ensures old(Tidy(f)) && old(Sound(f)) ==>
      BitsLeft(f) == old(BitsLeft(f)) && |BitsLeft(f)| >= f.validBits && (!more ==> |BitsLeft(f)| == f.validBits)
    ensures old(Spent(f)) ==> !more && Spent(f) && f.pos == old(f.pos)
  {
    hide Vorb.PacketRest;
    if f.lastSeg && f.bytesInSeg == 0 {
      if Tidy(f) {
        HeldLength(f);
        NoBytesLeft(f);
      }
      return false;
    }
    HeldLength(f);
    var z := PullByte(f);
    HeldLength(f);
    more := z != EOP;
  }

  lemma NoBytesLeft(f: Vorb)
    requires Tidy(f) && f.lastSeg && f.bytesInSeg == 0
    ensures Sound(f) ==> |BitsLeft(f)| == f.validBits
  {}

  /** Pulls bytes until `n` bits are valid; at the end of the packet the bits become invalid. */
  method FillTo(f: Vorb, n: nat) returns (ok: bool)
    requires Tidy(f) && n <= 24 && f.validBits < n
    modifies f`acc, f`validBits, f`pos, f`eof, f`error, f`pageFlag, f`segmentCount, f`nextSeg, f`lastSeg, f`bytesInSeg, f.segments
    ensures f.Valid() && if ok then Tidy(f) && f.validBits >= n else f.validBits == -1
    ensures SamePacket(old(f.PacketRest()), old(f.eof), f)
    ensures old(Sound(f)) ==> (ok <==> n <= |old(BitsLeft(f))|) && if ok then BitsLeft(f) == old(BitsLeft(f)) else Spent(f)
  {
    hide Vorb.PacketRest, Pow2, Held, Unread;
    ghost var bits := if Sound(f) then BitsLeft(f) else [];
    ClearIfEmpty(f);
    while f.validBits < n
      invariant Tidy(f) && (f.validBits == 0 ==> f.acc == 0)
      invariant SamePacket(old(f.PacketRest()), old(f.eof), f)
      invariant old(Sound(f)) ==> BitsLeft(f) == bits
    {
      var z := PullByte(f);
      if z == EOP {
        Pow2Monotone(f.validBits, 32);
        ghost var p := f.PacketRest();
        f.validBits := INVALID_BITS;
        assert f.PacketRest() == p;
        return false;
      }
    }
    HeldLength(f);
    ok := true;
  }

  lemma HeldLength(f: Vorb)
    requires Tidy(f)
    ensures |BitsLeft(f)| >= f.validBits
  {
    hide Vorb.PacketRest;
  }

  /** Takes the lowest `n` valid bits. */
  method TakeBits(f: Vorb, n: nat) returns (z: nat)
    requires Tidy(f) && n <= f.validBits
    modifies f`acc, f`validBits
    ensures Tidy(f) && f.validBits == old(f.validBits) - n
    ensures z < Pow2(n) && BitsOf(z, n) == BitsOf(old(f.acc), old(f.validBits))[..n]
    ensures BitsLeft(f) == old(BitsLeft(f))[n..] && old(BitsLeft(f))[..n] == BitsOf(z, n)
    ensures f.acc == ShiftRight(old(f.acc), n)
  {
    hide Vorb.PacketRest;
    ghost var p := f.PacketRest();
    if f.validBits == 0 {
      assert n == 0;
    } else {
      ShiftOut(f.acc, f.validBits, n);
    }
    z := LowBits(f.acc, n);
    f.acc := ShiftRight(f.acc, n);
    f.validBits := f.validBits - n;
    assert f.PacketRest() == p;
  }

  /**
   Reads `n` bits, the first being the least significant. Past the end of the packet it delivers zero,
   or for a read of more than 24 bits the 24 it could still get, and every later read delivers zero.
   */
  method GetBits(f: Vorb, n: nat) returns (z: nat)
    requires f.Valid() && (f.validBits == INVALID_BITS || Tidy(f))
    requires n <= 30 || (n <= 32 && f.validBits < n)
    modifies f`acc, f`validBits, f`pos, f`eof, f`error, f`pageFlag, f`segmentCount, f`nextSeg, f`lastSeg, f`bytesInSeg, f.segments
    ensures f.Valid() && (f.validBits == INVALID_BITS || Tidy(f))
    ensures SamePacket(old(f.PacketRest()), old(f.eof), f)
    ensures old(f.validBits) == -1 ==> z == 0 && f.validBits == -1 && (old(Spent(f)) ==> Spent(f))
    ensures old(f.validBits) >= 0 && old(Sound(f)) ==>
      var bits := old(BitsLeft(f));
      z == ReadValue(bits, n) && if n <= |bits| then Tidy(f) && BitsLeft(f) == bits[n..] else Spent(f)
    decreases n
  {
    hide Vorb.PacketRest, Unread, ReadValue;
    if f.validBits < 0 {
      return 0;
    }
    HeldLength(f);
    if f.validBits < n {
      if n > 24 {
        // the accumulator technique would not work correctly in this case
        z := GetManyBits(f, n);
        return;
      }
      var ok := FillTo(f, n);
      if !ok {
        ShortRead(if old(Sound(f)) then old(BitsLeft(f)) else [], n);
        return 0;
      }
    }
    z := TakeBits(f, n);
    ReadsBits(old(BitsLeft(f)), z, n);
  }

  /** A read of more than 24 bits, in two steps. */
  method GetManyBits(f: Vorb, n: nat) returns (z: nat)
    requires Tidy(f) && f.validBits < n && 24 < n <= 32
    modifies f`acc, f`validBits, f`pos, f`eof, f`error, f`pageFlag, f`segmentCount, f`nextSeg, f`lastSeg, f`bytesInSeg, f.segments
    ensures f.Valid() && (f.validBits == INVALID_BITS || Tidy(f))
    ensures SamePacket(old(f.PacketRest()), old(f.eof), f)
    ensures old(Sound(f)) ==>
      var bits := old(BitsLeft(f));
      z == ReadValue(bits, n) && if n <= |bits| then Tidy(f) && BitsLeft(f) == bits[n..] else Spent(f)
    decreases n, 0
  {
    hide Vorb.PacketRest, Unread, Pow2;
    ghost var bits := BitsLeft(f);
    z := GetBits(f, 24);
    var high := GetBits(f, n - 24);
    z := z + ShiftLeft(high, 24);
    ShiftLeftIsProduct(0, 24);
    if |bits| >= 24 {
      LongRead(bits, n);
    }
  }

  lemma ShortRead(bits: seq<bool>, n: nat)
    requires n <= 24
    ensures n > |bits| ==> ReadValue(bits, n) == 0
  {}

  lemma ReadsBits(bits: seq<bool>, z: nat, n: nat)
    requires z < Pow2(n)
    ensures n <= |bits| && bits[..n] == BitsOf(z, n) ==> z == ReadValue(bits, n)
  {
    ValueOfBits(z, n);
  }
}
