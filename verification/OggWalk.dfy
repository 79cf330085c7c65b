/**
 Packets in an Ogg stream (RFC 3533): a packet is the concatenation of segments up to and including
 the first one shorter than 255 bytes, possibly across pages.
 */
module OggWalk {

  type Byte = b: nat | b < 256

  const HEADER: nat := 27
  const CAPTURE: seq<Byte> := [0x4f, 0x67, 0x67, 0x53]

  /** A whole page header of version 0 and its segment table start at `pos`. */
  predicate HeaderAt(s: seq<Byte>, pos: nat)
  {
    pos + HEADER <= |s| && s[pos..pos + 4] == CAPTURE && s[pos + 4] == 0 && pos + HEADER + s[pos + 26] <= |s|
  }

  function FlagAt(s: seq<Byte>, pos: nat): Byte
    requires HeaderAt(s, pos)
  {
    s[pos + 5]
  }

  function LacingAt(s: seq<Byte>, pos: nat): (r: seq<Byte>)
    requires HeaderAt(s, pos)
    ensures |r| == s[pos + 26]
  {
    s[pos + HEADER..pos + HEADER + s[pos + 26]]
  }

  function BodyAt(s: seq<Byte>, pos: nat): (r: nat)
    requires HeaderAt(s, pos)
    ensures pos < r <= |s|
  {
    pos + HEADER + s[pos + 26]
  }

  predicate Continued(flag: Byte)
  {
    flag % 2 == 1
  }

  /** The rest of a packet, and where in the stream it ends; `Broken` if it does not end properly. */
  datatype Packet = Whole(payload: seq<Byte>, end: nat) | Broken

  function Prepend(front: seq<Byte>, p: Packet): Packet
  {
    match p
    case Broken => Broken
    case Whole(payload, end) => Whole(front + payload, end)
  }

  /**
   The packet that goes on with segment `i` of a page with the given lacing values, `pos` being the
   start of that segment's bytes. Past the last segment it goes on with the next page.
   */
  function Walk(s: seq<Byte>, pos: nat, lacing: seq<Byte>, i: nat): (r: Packet)
    requires i <= |lacing|
    ensures r.Whole? ==> pos <= r.end <= |s|
    decreases if pos <= |s| then |s| - pos else 0, |lacing| - i
  {
    if i == |lacing| then
      if HeaderAt(s, pos) && Continued(FlagAt(s, pos)) && LacingAt(s, pos) != []
      then Walk(s, BodyAt(s, pos), LacingAt(s, pos), 0)
      else Broken
    else if pos + lacing[i] > |s| then Broken
    else if lacing[i] < 255 then Whole(s[pos..pos + lacing[i]], pos + lacing[i])
    else Prepend(s[pos..pos + 255], Walk(s, pos + 255, lacing, i + 1))
  }

  // ----- a stream made of pages -----

  /** A page: its flags, the rest of its header, and the bytes of each segment. */
  datatype Page = Page(flag: Byte, rest: seq<Byte>, segs: seq<seq<Byte>>)

  ghost predicate ValidPage(p: Page)
  {
    |p.rest| == 20 && 1 <= |p.segs| <= 255 && forall i {:trigger p.segs[i]} :: 0 <= i < |p.segs| ==> |p.segs[i]| <= 255
  }

  ghost function Lacing(segs: seq<seq<Byte>>): (r: seq<Byte>)
    requires forall i {:trigger segs[i]} :: 0 <= i < |segs| ==> |segs[i]| <= 255
    ensures |r| == |segs| && forall i {:trigger r[i]} :: 0 <= i < |r| ==> r[i] == |segs[i]|
  {
    seq(|segs|, i requires 0 <= i < |segs| => |segs[i]|)
  }

  ghost function Concat(segs: seq<seq<Byte>>): seq<Byte>
  {
    if segs == [] then [] else segs[0] + Concat(segs[1..])
  }

  ghost function HeaderBytes(p: Page): (r: seq<Byte>)
    requires ValidPage(p)
    ensures |r| == HEADER + |p.segs|
  {
    CAPTURE + [0, p.flag] + p.rest + [|p.segs|] + Lacing(p.segs)
  }

  ghost predicate ValidPages(pages: seq<Page>)
  {
    forall k {:trigger ValidPage(pages[k])} :: 0 <= k < |pages| ==> ValidPage(pages[k])
  }

  ghost function StreamBytes(pages: seq<Page>): seq<Byte>
    requires ValidPages(pages)
  {
    if pages == [] then [] else HeaderBytes(pages[0]) + Concat(pages[0].segs) + StreamBytes(pages[1..])
  }

  /** The packet that goes on with segment `i` of the first page, following the continuation flags. */
  ghost function PagedPacket(pages: seq<Page>, i: nat): (r: (seq<Byte>, bool))
    requires pages == [] || i <= |pages[0].segs|
    decreases |pages|, if pages == [] then 0 else |pages[0].segs| - i
  {
    if pages == [] then ([], false)
    else if i == |pages[0].segs| then
      if |pages| > 1 && Continued(pages[1].flag) then PagedPacket(pages[1..], 0) else ([], false)
    else
      var seg := pages[0].segs[i];
      if |seg| < 255 then (seg, true)
      else
        var (tail, whole) := PagedPacket(pages, i + 1);
        (seg + tail, whole)
  }

  lemma HeaderReadsBack(p: Page, tail: seq<Byte>, s: seq<Byte>, pos: nat)
    requires ValidPage(p) && pos <= |s| && s[pos..] == HeaderBytes(p) + tail
    ensures HeaderAt(s, pos) && FlagAt(s, pos) == p.flag && LacingAt(s, pos) == Lacing(p.segs)
    ensures BodyAt(s, pos) == pos + HEADER + |p.segs| && s[BodyAt(s, pos)..] == tail
  {
    var h := HeaderBytes(p);
    assert forall k {:trigger h[k]} :: 0 <= k < |h| ==> s[pos + k] == s[pos..][k] == h[k];
    assert h[..4] == CAPTURE && h[4] == 0 && h[5] == p.flag && h[26] == |p.segs|;
    assert s[pos..pos + 4] == h[..4];
    assert h[27..] == Lacing(p.segs);
    assert s[pos + HEADER..pos + |h|] == h[27..];
    assert s[pos + |h|..] == s[pos..][|h|..];
  }

  lemma ConcatFrom(segs: seq<seq<Byte>>, i: nat)
    requires i < |segs|
    ensures Concat(segs[i..]) == segs[i] + Concat(segs[i + 1..])
  {
    assert segs[i..][1..] == segs[i + 1..];
  }

  lemma NextPage(pages: seq<Page>, s: seq<Byte>, pos: nat)
    requires ValidPages(pages) && |pages| > 1 && pos <= |s| && s[pos..] == StreamBytes(pages[1..])
    ensures ValidPages(pages[1..]) && ValidPage(pages[1])
    ensures HeaderAt(s, pos) && FlagAt(s, pos) == pages[1].flag && LacingAt(s, pos) == Lacing(pages[1].segs)
    ensures s[BodyAt(s, pos)..] == Concat(pages[1].segs[0..]) + StreamBytes(pages[1..][1..])
  {
    var next := pages[1];
    assert ValidPage(next) && pages[1..][0] == next;
    var tail := Concat(next.segs) + StreamBytes(pages[1..][1..]);
    assert s[pos..] == HeaderBytes(next) + tail;
    HeaderReadsBack(next, tail, s, pos);
    assert next.segs[0..] == next.segs;
  }

  /** Walking the bytes and following the pages agree on the packet. */
  ghost predicate Agrees(pages: seq<Page>, s: seq<Byte>, pos: nat, i: nat)
    requires |pages| > 0 && ValidPage(pages[0]) && i <= |pages[0].segs|
  {
    var w := Walk(s, pos, Lacing(pages[0].segs), i);
    var (payload, whole) := PagedPacket(pages, i);
    w.Whole? == whole && (whole ==> w.payload == payload)
  }

  lemma AgreesAtSegment(pages: seq<Page>, s: seq<Byte>, pos: nat, i: nat)
    requires |pages| > 0 && ValidPage(pages[0]) && i < |pages[0].segs|
    requires var seg := pages[0].segs[i];
      pos + |seg| <= |s| && s[pos..pos + |seg|] == seg && (|seg| == 255 ==> Agrees(pages, s, pos + 255, i + 1))
    ensures Agrees(pages, s, pos, i)
  {}

  lemma AgreesAtPageEnd(pages: seq<Page>, s: seq<Byte>, pos: nat, i: nat)
    requires ValidPages(pages) && |pages| > 0 && ValidPage(pages[0]) && i == |pages[0].segs| && pos <= |s|
    requires s[pos..] == StreamBytes(pages[1..])
    requires |pages| > 1 ==>
      HeaderAt(s, pos) && FlagAt(s, pos) == pages[1].flag && ValidPage(pages[1]) &&
      LacingAt(s, pos) == Lacing(pages[1].segs) && Agrees(pages[1..], s, BodyAt(s, pos), 0)
    ensures Agrees(pages, s, pos, i)
  {}

  /** On a stream made of pages the walk yields exactly the lacing-delimited packet. */
  lemma {:induction false} WalkYieldsPacket(pages: seq<Page>, s: seq<Byte>, pos: nat, i: nat)
    requires ValidPages(pages) && |pages| > 0 && ValidPage(pages[0]) && i <= |pages[0].segs| && pos <= |s|
    requires s[pos..] == Concat(pages[0].segs[i..]) + StreamBytes(pages[1..])
    ensures Agrees(pages, s, pos, i)
    decreases |pages|, |pages[0].segs| - i
  {
    var segs, rest := pages[0].segs, StreamBytes(pages[1..]);
    if i == |segs| {
      assert s[pos..] == rest;
      if |pages| > 1 {
        NextPage(pages, s, pos);
        WalkYieldsPacket(pages[1..], s, BodyAt(s, pos), 0);
      }
      AgreesAtPageEnd(pages, s, pos, i);
    } else {
      ConcatFrom(segs, i);
      assert s[pos..] == segs[i] + (Concat(segs[i + 1..]) + rest);
      SegmentReadsBack(segs[i], Concat(segs[i + 1..]) + rest, s, pos);
      if |segs[i]| == 255 {
        WalkYieldsPacket(pages, s, pos + 255, i + 1);
      }
      AgreesAtSegment(pages, s, pos, i);
    }
  }

  lemma SegmentReadsBack(seg: seq<Byte>, tail: seq<Byte>, s: seq<Byte>, pos: nat)
    requires pos <= |s| && s[pos..] == seg + tail
    ensures pos + |seg| <= |s| && s[pos..pos + |seg|] == seg && s[pos + |seg|..] == tail
  {
    assert s[pos..pos + |seg|] == s[pos..][..|seg|];
    assert s[pos + |seg|..] == s[pos..][|seg|..];
  }
}
