/** The push-mode check that a whole packet is in memory, and its agreement with the reader. */
module OggLookahead {
  import opened OggWalk
  import opened OggReader

  /** Where the packet ends, and whether every page on the way carries a segment; `Missing` if it is not all there. */
  datatype Ahead = Reaches(end: nat, plain: bool) | Missing

  /** The look-ahead on values: unlike the reader it passes over pages without segments. */
  function Look(s: seq<Byte>, pos: nat, lacing: seq<Byte>, i: nat): (r: Ahead)
    requires i <= |lacing|
    decreases if pos <= |s| then |s| - pos else 0, |lacing| - i + 1
  {
    if i == |lacing| then
      if HeaderAt(s, pos) && Continued(FlagAt(s, pos)) then LookPage(s, pos) else Missing
    else if pos + lacing[i] > |s| then Missing
    else if lacing[i] < 255 then Reaches(pos + lacing[i], true)
    else Look(s, pos + 255, lacing, i + 1)
  }

  function LookPage(s: seq<Byte>, pos: nat): (r: Ahead)
    requires HeaderAt(s, pos)
    decreases if pos <= |s| then |s| - pos else 0, 0
  {
    match Look(s, BodyAt(s, pos), LacingAt(s, pos), 0)
    case Missing => Missing
    case Reaches(end, plain) => Reaches(end, plain && LacingAt(s, pos) != [])
  }

  /** The look-ahead from a reader between packets. */
  ghost function LookFrom(f: Vorb): Ahead
    requires f.Valid()
    reads f, f.segments
  {
    if f.nextSeg != -1 then
      match Look(f.stream, f.pos, f.PageLacing(), f.nextSeg)
      case Missing => Missing
      case Reaches(end, plain) => Reaches(end, plain && f.nextSeg < f.segmentCount)
    else if HeaderAt(f.stream, f.pos) && (f.previousLength != 0 ==> !Continued(FlagAt(f.stream, f.pos))) then
      LookPage(f.stream, f.pos)
    else Missing
  }

  /** On pages with segments the look-ahead finds exactly the packets the reader can read, and their ends. */
  lemma {:induction false} LookAgrees(s: seq<Byte>, pos: nat, lacing: seq<Byte>, i: nat)
    requires i <= |lacing|
    ensures var a, w := Look(s, pos, lacing, i), Walk(s, pos, lacing, i);
      (a.Reaches? && a.plain <==> w.Whole?) && (w.Whole? ==> w.end == a.end)
    decreases if pos <= |s| then |s| - pos else 0, |lacing| - i
  {
    if i == |lacing| {
      if HeaderAt(s, pos) {
        LookAgrees(s, BodyAt(s, pos), LacingAt(s, pos), 0);
      }
    } else if pos + lacing[i] <= |s| && lacing[i] == 255 {
      LookAgrees(s, pos + 255, lacing, i + 1);
    }
  }

  /** The packet a reader between packets faces; without a previous packet it comes in on a continued one. */
  ghost function Faced(f: Vorb): Packet
    requires f.Valid()
    reads f, f.segments
  {
    if f.AtContinuedPage() && f.previousLength == 0 then f.ContinuedPacket() else f.NextPacket()
  }

  /** A reader between packets faces the packet the look-ahead saw, exactly when no page on the way lacks segments. */
  lemma LookFromAgrees(f: Vorb)
    requires f.Valid()
    ensures var a, w := LookFrom(f), Faced(f);
      (a.Reaches? && a.plain <==> w.Whole?) && (w.Whole? ==> w.end == a.end)
  {
    if f.nextSeg != -1 {
      LookAgrees(f.stream, f.pos, f.PageLacing(), f.nextSeg);
    } else if HeaderAt(f.stream, f.pos) {
      LookAgrees(f.stream, BodyAt(f.stream, f.pos), LacingAt(f.stream, f.pos), 0);
    }
  }

  /** Runs over lacing values from `s` up to the first short one. */
  method SkipLacing(stream: seq<Byte>, lacing: seq<Byte>, s0: nat, p0: nat) returns (s: nat, p: nat)
    requires s0 <= |lacing| && p0 <= |stream|
    ensures p >= p0 && s <= |lacing|
    ensures p > |stream| ==> Look(stream, p0, lacing, s0) == Missing
    ensures p <= |stream| && s < |lacing| ==> Look(stream, p0, lacing, s0) == Reaches(p, true)
    ensures p <= |stream| && s == |lacing| ==> Look(stream, p0, lacing, s0) == Look(stream, p, lacing, s)
  {
    s, p := s0, p0;
    while s < |lacing|
      invariant p >= p0 && s0 <= s <= |lacing|
      invariant p <= |stream| ==> Look(stream, p0, lacing, s0) == Look(stream, p, lacing, s)
      invariant p > |stream| ==> Look(stream, p0, lacing, s0) == Missing
    {
      p := p + lacing[s];
      if lacing[s] < 255 {
        break;
      }
      s := s + 1;
    }
  }

  /** Is the rest of the packet in memory? Returns the pointer the scan stops at. */
  method IsWholePacketPresent(f: Vorb) returns (present: bool, p: nat)
    requires f.Valid()
    modifies f`error
    ensures present <==> old(LookFrom(f)).Reaches?
    ensures present ==> p == old(LookFrom(f)).end
  {
    var stream := f.stream;
    var s: int, first := f.nextSeg, true;
    p := f.pos;
    if s != -1 {
      var lacing := f.segments[..f.segmentCount];
      s, p := SkipLacing(stream, lacing, s, p);
      if s == f.segmentCount {
        s := -1;
      }
      if p > |stream| {
        f.error := NeedMoreData;
        return false, p;
      }
      first := false;
    }
    present, p := ScanPages(f, s, p, first);
  }

  /** What is left of the look-ahead at a page boundary. */
  ghost function LookNext(f: Vorb, p: nat, first: bool): Ahead
    reads f
  {
    if HeaderAt(f.stream, p) &&
       (if first then f.previousLength != 0 ==> !Continued(FlagAt(f.stream, p)) else Continued(FlagAt(f.stream, p)))
    then LookPage(f.stream, p)
    else Missing
  }

  ghost predicate SameEnd(a: Ahead, b: Ahead)
  {
    a.Reaches? == b.Reaches? && (a.Reaches? ==> a.end == b.end)
  }

  method ScanPages(f: Vorb, s0: int, p0: nat, first0: bool) returns (present: bool, p: nat)
    requires p0 <= |f.stream|
    modifies f`error
    ensures s0 != -1 ==> present && p == p0
    ensures s0 == -1 ==> (present <==> old(LookNext(f, p0, first0)).Reaches?)
    ensures s0 == -1 && present ==> p == old(LookNext(f, p0, first0)).end
  {
    var stream := f.stream;
    var s, first := s0, first0;
    p := p0;
    while s == -1
      invariant p <= |stream|
      invariant s0 != -1 ==> s == s0 && p == p0
      invariant s0 == -1 ==>
        SameEnd(old(LookNext(f, p0, first0)), if s == -1 then LookNext(f, p, first) else Reaches(p, true))
      decreases s == -1, |stream| - p
    {
      if p + 26 >= |stream| {
        f.error := NeedMoreData;
        return false, p;
      }
      if stream[p..p + 4] != CAPTURE || stream[p + 4] != 0 {
        f.error := InvalidStream;
        return false, p;
      }
      var continued := stream[p + 5] % 2 == 1;
      if first {
        if f.previousLength != 0 && continued {
          f.error := InvalidStream;
          return false, p;
        }
      } else if !continued {
        f.error := InvalidStream;
        return false, p;
      }
      var n := stream[p + 26];
      if p + 27 + n > |stream| {
        f.error := NeedMoreData;
        return false, p;
      }
      var lacing := stream[p + 27..p + 27 + n];
      s, p := SkipLacing(stream, lacing, 0, p + 27 + n);
      if s == n {
        s := -1;
      }
      if p > |stream| {
        f.error := NeedMoreData;
        return false, p;
      }
      first := false;
    }
    present := true;
  }

  /**
   The check, then the packet: read, or drained when a decoder without a previous packet comes in on a continued one.
   When the check succeeds, and exactly when no page on the way is without segments, this delivers the packet, never
   runs off the end of the stream and stops where the look-ahead stopped.
   */
  method ReadPresentPacket(f: Vorb) returns (present: bool, started: bool, ghost got: seq<int>)
    requires f.Valid() && !f.eof
    modifies f, f.segments
    ensures present <==> old(LookFrom(f)).Reaches?
    ensures !present ==> got == [] && f.pos == old(f.pos) && !f.eof
    ensures present ==> (old(LookFrom(f)).plain <==> old(Faced(f)).Whole?)
    ensures present && old(LookFrom(f)).plain ==>
      && got == old(Faced(f)).payload && f.pos == old(LookFrom(f)).end && !f.eof
      && (started <==> !old(f.AtContinuedPage()))
  {
    var p;
    started, got := false, [];
    LookFromAgrees(f);
    present, p := IsWholePacketPresent(f);
    if !present {
      return;
    }
    assert f.AtContinuedPage() ==> f.previousLength == 0;
    started := f.MaybeStartPacket();
    if started {
      got := f.FlushPacket();
    } else if f.error == ContinuedFlagInvalid && f.previousLength == 0 {
      f.error := NoError;
      got := f.FlushPacket();
    }
  }
}
