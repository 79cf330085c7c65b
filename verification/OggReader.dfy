/** The decoder's view of the stream: pages, segments of the current packet, and its bytes one at a time. */
module OggReader {
  import opened OggWalk

  const EOP: int := -1
  const SEGMENTS: nat := 255

  datatype Error = NoError | MissingCapture | BadVersion | UnexpectedEof | ContinuedFlagInvalid | NeedMoreData | InvalidStream

  class Vorb {
    const stream: seq<Byte>
    const segments: array<Byte>
    var pos: nat
    var eof: bool
    var error: Error
    var pageFlag: Byte
    var segmentCount: nat
    /** The next segment of the page, or -1 when the page is used up. */
    var nextSeg: int
    var lastSeg: bool
    var bytesInSeg: nat
    var previousLength: nat
    /** The bit accumulator, of which the lowest `validBits` bits are meaningful. */
    var acc: nat
    var validBits: int

    ghost predicate Valid()
      reads `pos, `segmentCount, `nextSeg
    {
      segments.Length == SEGMENTS && pos <= |stream| && segmentCount <= SEGMENTS &&
      -1 <= nextSeg < SEGMENTS && nextSeg <= segmentCount
    }

    constructor (stream: seq<Byte>)
      ensures Valid() && fresh(segments) && this.stream == stream
      ensures pos == 0 && nextSeg == -1 && !eof
    {
      this.stream := stream;
      segments := new Byte[SEGMENTS](_ => 0);
      pos, eof, error := 0, false, NoError;
      pageFlag, segmentCount, nextSeg, lastSeg, bytesInSeg := 0, 0, -1, false, 0;
      previousLength, acc, validBits := 0, 0, 0;
    }

    ghost function PageLacing(): seq<Byte>
      requires Valid()
      reads `pos, `segmentCount, `nextSeg, segments
    {
      segments[..segmentCount]
    }

    /** What the current packet still holds, and where it ends. */
    ghost function PacketRest(): Packet
      requires Valid()
      reads `pos, `segmentCount, `nextSeg, `lastSeg, `bytesInSeg, segments
    {
      var here := pos + bytesInSeg;
      if here > |stream| then Broken
      else if lastSeg then Whole(stream[pos..here], here)
      else if nextSeg == -1 then Prepend(stream[pos..here], Walk(stream, here, PageLacing(), segmentCount))
      else if nextSeg < segmentCount then Prepend(stream[pos..here], Walk(stream, here, PageLacing(), nextSeg))
      else Broken
    }

    /** The packet that starts at the next segment, or on the next page when this one is used up. */
    ghost function NextPacket(): Packet
      requires Valid()
      reads `pos, `segmentCount, `nextSeg, segments
    {
      if nextSeg == -1 then
        if HeaderAt(stream, pos) && !Continued(FlagAt(stream, pos)) && LacingAt(stream, pos) != []
        then Walk(stream, BodyAt(stream, pos), LacingAt(stream, pos), 0)
        else Broken
      else if nextSeg < segmentCount then Walk(stream, pos, PageLacing(), nextSeg)
      else Broken
    }

    ghost function SegmentsLeft(): int
      reads `nextSeg
    {
      if nextSeg == -1 then 0 else SEGMENTS + 1 - nextSeg
    }

    /** Further along than a reader at the given position: every byte delivered makes such progress. */
    ghost predicate Beyond(pos0: nat, segs0: int, bytes0: nat)
      reads `pos, `nextSeg, `bytesInSeg
    {
      pos > pos0 || (pos == pos0 && (SegmentsLeft() < segs0 || (SegmentsLeft() == segs0 && bytesInSeg < bytes0)))
    }

    method Get8() returns (b: Byte)
      requires Valid()
      modifies this`pos, this`eof
      ensures Valid()
      ensures old(pos) < |stream| ==> b == stream[old(pos)] && pos == old(pos) + 1 && eof == old(eof)
      ensures old(pos) == |stream| ==> b == 0 && pos == old(pos) && eof
    {
      if pos >= |stream| {
        eof := true;
        return 0;
      }
      b := stream[pos];
      pos := pos + 1;
    }

    /** Skips a 32-bit header field. */
    method Get32()
      requires Valid()
      modifies this`pos, this`eof
      ensures Valid() && pos == (if old(pos) + 4 <= |stream| then old(pos) + 4 else |stream|)
      ensures eof <==> old(eof) || old(pos) + 4 > |stream|
    {
      var b := Get8();
      b := Get8();
      b := Get8();
      b := Get8();
    }

    /** The granule position, serial number, sequence number and checksum of a page. */
    method SkipFields()
      requires Valid()
      modifies this`pos, this`eof
      ensures Valid() && pos == (if old(pos) + 20 <= |stream| then old(pos) + 20 else |stream|)
      ensures eof <==> old(eof) || old(pos) + 20 > |stream|
    {
      Get32();
      Get32();
      Get32();
      Get32();
      Get32();
    }

    method CapturePattern() returns (ok: bool)
      requires Valid()
      modifies this`pos, this`eof
      ensures Valid() && old(pos) <= pos
      ensures ok <==> CaptureAt(stream, old(pos))
      ensures ok ==> pos == old(pos) + 4 && eof == old(eof)
    {
      ghost var start := pos;
      if start + 4 <= |stream| {
        FourBytes(stream, start);
      }
      var b := Get8();
      if b != 0x4f { return false; }
      b := Get8();
      if b != 0x67 { return false; }
      b := Get8();
      if b != 0x67 { return false; }
      b := Get8();
      if b != 0x53 { return false; }
      return true;
    }

    /** Copies the segment table. */
    method ReadSegments(n: Byte) returns (ok: bool)
      requires Valid()
      modifies this`pos, this`eof, segments
      ensures Valid() && old(pos) <= pos
      ensures ok <==> old(pos) + n <= |stream|
      ensures ok ==> pos == old(pos) + n && eof == old(eof) && segments[..n] == stream[old(pos)..pos]
    {
      if pos + n > |stream| {
        eof := true;
        return false;
      }
      for i := 0 to n
        invariant segments[..i] == stream[pos..pos + i]
        modifies segments
      {
        segments[i] := stream[pos + i];
      }
      pos := pos + n;
      return true;
    }

    /** The page header behind the capture pattern. */
    method StartPageNoCapture(ghost start: nat) returns (ok: bool)
      requires Valid() && CaptureAt(stream, start) && pos == start + 4
      modifies this`pos, this`eof, this`error, this`pageFlag, this`segmentCount, this`nextSeg, segments
      ensures Valid() && start < pos
      ensures ok <==> PageStarts(stream, start)
      ensures ok ==> nextSeg == 0
      ensures ok && start + HEADER > |stream| ==> eof && segmentCount == 0
      ensures HeaderAt(stream, start) ==>
        pos == BodyAt(stream, start) && eof == old(eof) && pageFlag == FlagAt(stream, start) && PageLacing() == LacingAt(stream, start)
    {
      var version := Get8();
      if version != 0 {
        error := BadVersion;
        return false;
      }
      pageFlag := Get8();
      SkipFields();
      var count := Get8();
      nextSeg := -1;
      segmentCount := count;
      ok := ReadSegments(count);
      if !ok {
        error := UnexpectedEof;
        return;
      }
      nextSeg := 0;
    }

    method StartPage() returns (ok: bool)
      requires Valid()
      modifies this`pos, this`eof, this`error, this`pageFlag, this`segmentCount, this`nextSeg, segments
      ensures Valid() && old(pos) <= pos
      ensures ok <==> PageStarts(stream, old(pos))
      ensures ok ==> old(pos) < pos && nextSeg == 0
      ensures ok && old(pos) + HEADER > |stream| ==> eof && segmentCount == 0
      ensures HeaderAt(stream, old(pos)) ==>
        ok && pos == BodyAt(stream, old(pos)) && eof == old(eof) && nextSeg == 0 &&
        pageFlag == FlagAt(stream, old(pos)) && PageLacing() == LacingAt(stream, old(pos))
    {
      ghost var start := pos;
      ok := CapturePattern();
      if !ok {
        error := MissingCapture;
        return;
      }
      ok := StartPageNoCapture(start);
    }

    /** Moves to the next segment of the packet, on the next page if need be; 0 if there is none or it is empty. */
    method NextSegment() returns (len: nat)
      requires Valid() && bytesInSeg == 0
      modifies this`pos, this`eof, this`error, this`pageFlag, this`segmentCount, this`nextSeg, this`lastSeg, this`bytesInSeg, segments
      ensures Valid() && len == bytesInSeg <= 255
      ensures old(PacketRest()).Whole? ==> PacketRest() == old(PacketRest()) && eof == old(eof) && (len == 0 ==> lastSeg)
      ensures len > 0 ==> pos > old(pos) || (pos == old(pos) && SegmentsLeft() < old(SegmentsLeft()))
    {
      if lastSeg {
        return 0;
      }
      if nextSeg == -1 {
        assert stream[pos..pos] == [];
        var ok := StartPage();
        if !ok {
          lastSeg := true;
          return 0;
        }
        if pageFlag % 2 != 1 {
          error := ContinuedFlagInvalid;
          return 0;
        }
      }
      len := TakeSegment();
    }

    method TakeSegment() returns (len: nat)
      requires Valid() && bytesInSeg == 0 && !lastSeg && nextSeg >= 0
      modifies this`nextSeg, this`lastSeg, this`bytesInSeg
      ensures Valid() && len == bytesInSeg <= 255
      ensures old(PacketRest()).Whole? ==> PacketRest() == old(PacketRest()) && (len == 0 ==> lastSeg)
      ensures SegmentsLeft() < old(SegmentsLeft())
    {
      len := segments[nextSeg];
      nextSeg := nextSeg + 1;
      if len < 255 {
        lastSeg := true;
      }
      if nextSeg >= segmentCount {
        nextSeg := -1;
      }
      bytesInSeg := len;
    }

    /** The next byte of the segment. */
    method TakeByte() returns (b: Byte)
      requires Valid() && bytesInSeg > 0
      modifies this`pos, this`eof, this`bytesInSeg
      ensures Valid() && pos >= old(pos) && bytesInSeg == old(bytesInSeg) - 1
      ensures var was := old(PacketRest()); was.Whole? ==>
        was.payload != [] && b == was.payload[0] && PacketRest() == Whole(was.payload[1..], was.end) && eof == old(eof)
    {
      bytesInSeg := bytesInSeg - 1;
      b := Get8();
    }

    /** The next byte of the packet, or EOP at its end. */
    method Get8PacketRaw() returns (x: int)
      requires Valid()
      modifies this`pos, this`eof, this`error, this`pageFlag, this`segmentCount, this`nextSeg, this`lastSeg, this`bytesInSeg, segments
      ensures Valid() && (x == EOP || 0 <= x < 256)
      ensures var was := old(PacketRest()); was.Whole? ==>
        eof == old(eof) && PacketRest().Whole? && PacketRest().end == was.end &&
        if was.payload == [] then x == -1 && PacketRest() == was && pos == was.end && lastSeg && bytesInSeg == 0
        else x == was.payload[0] && PacketRest().payload == was.payload[1..]
      ensures x != EOP ==> Beyond(old(pos), old(SegmentsLeft()), old(bytesInSeg))
    {
      if bytesInSeg == 0 {
        if lastSeg {
          return EOP;
        }
        var len := NextSegment();
        if len == 0 {
          return EOP;
        }
      }
      x := TakeByte();
    }

    method StartPacket() returns (ok: bool)
      requires Valid()
      modifies this`pos, this`eof, this`error, this`pageFlag, this`segmentCount, this`nextSeg, this`lastSeg, this`bytesInSeg, this`validBits, segments
      ensures Valid()
      ensures old(NextPacket()).Whole? ==> ok && PacketRest() == old(NextPacket()) && eof == old(eof)
      ensures ok ==> validBits == 0
    {
      while nextSeg == -1
        invariant Valid()
        invariant old(NextPacket()).Whole? ==> NextPacket() == old(NextPacket()) && eof == old(eof)
        decreases nextSeg == -1
      {
        var started := StartPage();
        if !started {
          return false;
        }
        if pageFlag % 2 == 1 {
          error := ContinuedFlagInvalid;
          return false;
        }
      }
      lastSeg := false;
      validBits := 0;
      bytesInSeg := 0;
      assert stream[pos..pos] == [];
      ok := true;
    }

    /** The packet on the next page that a decoder finds there when that page says it continues an earlier one. */
    ghost function ContinuedPacket(): Packet
      reads `pos
    {
      if HeaderAt(stream, pos) && LacingAt(stream, pos) != [] then Walk(stream, BodyAt(stream, pos), LacingAt(stream, pos), 0)
      else Broken
    }

    ghost predicate AtContinuedPage()
      reads `pos, `nextSeg
    {
      nextSeg == -1 && HeaderAt(stream, pos) && Continued(FlagAt(stream, pos))
    }

    /** The capture pattern where a page may start; the end of the stream is no error there. */
    method CaptureAtBoundary() returns (ok: bool)
      requires Valid() && !eof
      modifies this`pos, this`eof, this`error
      ensures Valid() && old(pos) <= pos
      ensures ok <==> CaptureAt(stream, old(pos))
      ensures ok ==> pos == old(pos) + 4 && !eof
      ensures !ok && old(pos) < |stream| ==> error == MissingCapture
      ensures old(pos) == |stream| ==> eof && error == old(error)
    {
      ghost var start := pos;
      if start + 4 <= |stream| {
        FourBytes(stream, start);
      }
      var x := Get8();
      if eof { return false; }
      if x != 0x4f { error := MissingCapture; return false; }
      x := Get8();
      if x != 0x67 { error := MissingCapture; return false; }
      x := Get8();
      if x != 0x67 { error := MissingCapture; return false; }
      x := Get8();
      if x != 0x53 { error := MissingCapture; return false; }
      return true;
    }

    /**
     Starts a packet, for which the end of the stream at a page boundary is no error; a continued page is reported, but
     the reader is left facing its packet.
     */
    method MaybeStartPacket() returns (ok: bool)
      requires Valid() && !eof
      modifies this`pos, this`eof, this`error, this`pageFlag, this`segmentCount, this`nextSeg, this`lastSeg, this`bytesInSeg, this`validBits, segments
      ensures Valid()
      ensures old(NextPacket()).Whole? ==> ok && PacketRest() == old(NextPacket()) && !eof
      ensures old(AtContinuedPage()) ==> !ok && error == ContinuedFlagInvalid && PacketRest() == old(ContinuedPacket()) && !eof
      ensures old(nextSeg) == -1 && old(pos) == |stream| ==> !ok && eof && error == old(error)
      ensures ok ==> validBits == 0 && (old(nextSeg) == -1 ==> PageStarts(stream, old(pos)))
    {
      hide Walk;
      if nextSeg == -1 {
        ghost var start := pos;
        var captured := CaptureAtBoundary();
        if !captured { return false; }
        var started := StartPageNoCapture(start);
        if !started { return false; }
        if pageFlag % 2 == 1 {
          lastSeg := false;
          bytesInSeg := 0;
          error := ContinuedFlagInvalid;
          assert stream[pos..pos] == [];
          return false;
        }
      }
      ok := StartPacket();
    }

    /** Reads the packet to its end; `got` records the bytes delivered. */
    method FlushPacket() returns (ghost got: seq<int>)
      requires Valid()
      modifies this`pos, this`eof, this`error, this`pageFlag, this`segmentCount, this`nextSeg, this`lastSeg, this`bytesInSeg, segments
      ensures Valid()
      ensures var was := old(PacketRest()); was.Whole? ==> got == was.payload && pos == was.end && eof == old(eof)
    {
      got := [];
      ghost var was := PacketRest();
      var x := Get8PacketRaw();
      while x != EOP
        invariant Valid()
        invariant Delivered(got, x, PacketRest(), pos, was) && (was.Whole? ==> eof == old(eof))
        decreases x != EOP, |stream| - pos, SegmentsLeft(), bytesInSeg
      {
        ghost var rest, y := PacketRest(), x;
        x := Get8PacketRaw();
        DeliverNext(got, y, rest, x, PacketRest(), pos, was);
        got := got + [y];
      }
    }
  }

  /** The capture pattern stands at `p`. */
  ghost predicate CaptureAt(s: seq<Byte>, p: nat)
  {
    p + 4 <= |s| && s[p..p + 4] == CAPTURE
  }

  lemma FourBytes(s: seq<Byte>, p: nat)
    requires p + 4 <= |s|
    ensures s[p..p + 4] == [s[p], s[p + 1], s[p + 2], s[p + 3]]
  {}

  /** What passes for the start of a page: bytes past the end of the stream count as zeros, so a header cut short has no segments. */
  ghost predicate PageStarts(s: seq<Byte>, p: nat)
  {
    && CaptureAt(s, p) && (p + 4 < |s| ==> s[p + 4] == 0)
    && (p + HEADER <= |s| ==> p + HEADER + s[p + 26] <= |s|)
  }

  /** After `got` the byte `x` was read, or the end reached, of the packet `was`. */
  ghost predicate Delivered(got: seq<int>, x: int, rest: Packet, pos: nat, was: Packet)
  {
    was.Whole? ==>
      rest.Whole? && rest.end == was.end &&
      (x == EOP ==> got == was.payload && pos == was.end) &&
      (x != EOP ==>
        && |got| < |was.payload| && x == was.payload[|got|]
        && got == was.payload[..|got|] && rest.payload == was.payload[|got| + 1..])
  }

  lemma DeliverNext(got: seq<int>, y: int, rest: Packet, x: int, after: Packet, pos: nat, was: Packet)
    requires y != EOP && Delivered(got, y, rest, pos, was)
    requires rest.Whole? ==>
      && after.Whole? && after.end == rest.end
      && (rest.payload == [] ==> x == EOP && pos == rest.end)
      && (rest.payload != [] ==> x == rest.payload[0] != EOP && after.payload == rest.payload[1..])
    ensures Delivered(got + [y], x, after, pos, was)
  {}
}
