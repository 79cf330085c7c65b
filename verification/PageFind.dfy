/** The search for the next page, candidate by candidate. */
module PageFind {
  import opened OggWalk
  import opened OggReader
  import opened Crc
  import opened PageScan

  datatype Verdict = Accept(end: nat, last: bool) | Reject | GiveUp

  /** Reading the candidate's table or body hits the end of the stream where the search does not expect it. */
  ghost predicate Abandoned(s: seq<Byte>, p: nat)
  {
    TableCut(s, p) && BodyLength(s, p) != 0
  }

  /** What the search takes for a page: the bytes past the end of the stream count as zeros. */
  ghost predicate Accepted(t: seq<bv32>, s: seq<Byte>, p: nat)
    requires |t| == 256
  {
    ChecksumFits(t, s, p) && !Abandoned(s, p)
  }

  /** Where the search gives up: the unsigned bound on the offset wraps near the start of the stream. */
  ghost predicate Stops(s: seq<Byte>, p: nat)
  {
    p < |s| && s[p] == CAPTURE[0] && (p < 24 || Abandoned(s, p))
  }

  lemma WholeAccepted(t: seq<bv32>, s: seq<Byte>, p: nat)
    requires |t| == 256 && !Cut(s, p)
    ensures (Accepted(t, s, p) <==> IsPage(t, s, p)) && !Abandoned(s, p)
  {}

  method SetFileOffset(v: Vorb, loc: nat)
    requires v.Valid()
    modifies v`pos, v`eof
    ensures v.Valid() && v.pos == (if loc < |v.stream| then loc else |v.stream|) && (v.eof <==> loc >= |v.stream|)
  {
    v.eof := false;
    if loc >= |v.stream| {
      v.pos := |v.stream|;
      v.eof := true;
    } else {
      v.pos := loc;
    }
  }

  /** Compares the rest of the capture pattern. */
  method MatchCapture(v: Vorb) returns (i: nat)
    requires v.Valid() && 0 < v.pos && v.stream[v.pos - 1] == CAPTURE[0] && !v.eof
    modifies v`pos, v`eof
    ensures v.Valid() && v.pos >= old(v.pos)
    ensures v.eof ==> old(v.pos) + 3 > |v.stream|
    ensures !v.eof && i == 4 ==> v.pos == old(v.pos) + 3 && v.stream[old(v.pos) - 1..v.pos] == CAPTURE
    ensures !v.eof && i != 4 ==> !(old(v.pos) + 3 <= |v.stream| && v.stream[old(v.pos) - 1..old(v.pos) + 3] == CAPTURE)
  {
    ghost var p := v.pos - 1;
    i := 1;
    while i < 4
      invariant v.Valid() && 1 <= i <= 4 && !v.eof && v.pos == p + i
      invariant forall k :: 0 <= k < i ==> v.stream[p + k] == CAPTURE[k]
    {
      var b := v.Get8();
      if b != CAPTURE[i] {
        assert !v.eof ==> v.stream[p + i] == b;
        if !v.eof && p + 4 <= |v.stream| {
          assert v.stream[p..p + 4][i] == b;
        }
        break;
      }
      i := i + 1;
    }
    if i == 4 {
      assert v.stream[p..p + 4] == CAPTURE;
    }
  }

  lemma HeaderBytes(s: seq<Byte>, p: nat)
    requires p + HEADER <= |s| && s[p..p + 4] == CAPTURE
    ensures CAPTURE + Read(s, p + 4, HEADER - 4) == Read(s, p, HEADER)
  {
    var h := CAPTURE + Read(s, p + 4, HEADER - 4);
    forall i | 0 <= i < HEADER ensures h[i] == Read(s, p, HEADER)[i] {
      assert i < 4 ==> s[p..p + 4][i] == s[p + i];
    }
  }

  /** The three parts of the checksummed bytes. */
  lemma ChecksumParts(t: seq<bv32>, s: seq<Byte>, p: nat, crc: bv32)
    requires |t| == 256 && Candidate(s, p)
    requires crc == CrcFrom(t, CrcFrom(t, CrcOf(t, Cleared(Read(s, p, HEADER))), Read(s, p + HEADER, s[p + 26])),
      Read(s, p + HEADER + s[p + 26], BodyLength(s, p)))
    ensures ChecksumFits(t, s, p) <==> crc == Stored(Read(s, p, HEADER))
  {
    hide Total, CrcFrom, Word, Cleared;
    var h, n, b := Cleared(Read(s, p, HEADER)), s[p + 26], BodyLength(s, p);
    CrcConcat(t, CrcOf(t, h), Read(s, p + HEADER, n), Read(s, p + HEADER + n, b));
    assert Read(s, p + HEADER, n) + Read(s, p + HEADER + n, b) == Read(s, p + HEADER, n + b);
    CrcConcat(t, 0, h, Read(s, p + HEADER, n + b));
  }

  lemma OnlyCandidatesFit(t: seq<bv32>, s: seq<Byte>, p: nat)
    requires |t| == 256
    ensures ChecksumFits(t, s, p) ==> Candidate(s, p)
  {}

  /** The header after the capture pattern, the segment table and the body of a candidate. */
  method CheckCandidate(v: Vorb, t: seq<bv32>, ghost p: nat) returns (verdict: Verdict)
    requires v.Valid() && |t| == 256 && v.pos == p + 4 && v.stream[p..v.pos] == CAPTURE && !v.eof
    modifies v`pos, v`eof
    ensures v.Valid()
    ensures verdict.Accept? ==>
      && Accepted(t, v.stream, p) && verdict.last == (v.stream[p + 5] / 4 % 2 == 1)
      && verdict.end == if PageEnd(v.stream, p) <= |v.stream| then PageEnd(v.stream, p) else |v.stream|
    ensures verdict.Reject? ==> p + HEADER <= |v.stream| && !Accepted(t, v.stream, p) && !Abandoned(v.stream, p)
    ensures verdict.GiveUp? ==> p + HEADER > |v.stream| || Abandoned(v.stream, p)
  {
    hide Total, CrcFrom, Word, Cleared, ChecksumFits;
    var rest := ReadBytes(v, HEADER - 4);
    var header := CAPTURE + rest;
    if v.eof {
      return GiveUp;
    }
    HeaderBytes(v.stream, p);
    if header[4] != 0 {
      OnlyCandidatesFit(t, v.stream, p);
      assert !Abandoned(v.stream, p);
      return Reject;
    }
    assert Candidate(v.stream, p) && header[26] == v.stream[p + 26];
    var goal := Stored(header);
    var crc := CrcOf(t, Cleared(header));
    var len, sum;
    crc, len := ChecksumBytes(v, t, crc, header[26]);
    if len != 0 && v.eof {
      return GiveUp;
    }
    crc, sum := ChecksumBytes(v, t, crc, len);
    ChecksumParts(t, v.stream, p, crc);
    if crc == goal {
      return Accept(v.pos, header[5] / 4 % 2 == 1);
    }
    verdict := Reject;
  }

  /** A byte that can open a page was read: looks at what follows, and rewinds behind that byte unless it is a page. */
  method TryCandidate(v: Vorb, t: seq<bv32>) returns (verdict: Verdict)
    requires v.Valid() && |t| == 256 && 0 < v.pos && v.stream[v.pos - 1] == CAPTURE[0] && !v.eof
    modifies v`pos, v`eof
    ensures v.Valid()
    ensures var p := old(v.pos) - 1; verdict.Accept? ==>
      && p >= 24 && Accepted(t, v.stream, p) && verdict.last == (v.stream[p + 5] / 4 % 2 == 1) && v.pos == p && !v.eof
      && verdict.end == if PageEnd(v.stream, p) <= |v.stream| then PageEnd(v.stream, p) else |v.stream|
    ensures verdict.Reject? ==> !Accepted(t, v.stream, old(v.pos) - 1)
    ensures !verdict.GiveUp? ==> !Stops(v.stream, old(v.pos) - 1)
    ensures verdict.Reject? ==> v.pos == old(v.pos) && (v.eof <==> v.pos == |v.stream|)
    ensures verdict.GiveUp? ==> old(v.pos) - 1 + HEADER > |v.stream| || Stops(v.stream, old(v.pos) - 1)
  {
    hide Total, ChecksumFits, PageEnd;
    var retry := v.pos;
    ghost var p := retry - 1;
    if retry < 25 {
      return GiveUp;
    }
    var i := MatchCapture(v);
    if v.eof {
      return GiveUp;
    }
    verdict := Reject;
    if i == 4 {
      verdict := CheckCandidate(v, t, p);
      if verdict.GiveUp? {
        return;
      }
      if verdict.Accept? {
        SetFileOffset(v, retry - 1);
        return;
      }
    } else {
      OnlyCandidatesFit(t, v.stream, p);
    }
    SetFileOffset(v, retry);
  }

  lemma NoneLater(t: seq<bv32>, s: seq<Byte>, p: nat)
    requires |t| == 256
    ensures p + HEADER > |s| ==> !Accepted(t, s, p)
    ensures p < |s| && s[p] != CAPTURE[0] ==> !Accepted(t, s, p) && !Stops(s, p)
    ensures p >= |s| ==> !Stops(s, p)
  {
    if p + HEADER <= |s| && s[p..p + 4] == CAPTURE {
      assert s[p..p + 4][0] == s[p];
    }
  }

  /** The first position from `from` on that the search accepts. */
  ghost predicate First(t: seq<bv32>, s: seq<Byte>, from: nat, p: nat)
    requires |t| == 256
  {
    from <= p && Accepted(t, s, p) && forall c: nat {:trigger Accepted(t, s, c)} :: from <= c < p ==> !Accepted(t, s, c)
  }

  /** A page is accepted at `p`, and nothing from `from` to it stops the search. */
  ghost predicate Reachable(t: seq<bv32>, s: seq<Byte>, from: nat, p: nat)
    requires |t| == 256
  {
    from <= p && Accepted(t, s, p) && forall c: nat {:trigger Stops(s, c)} :: from <= c <= p ==> !Stops(s, c)
  }

  /** The first page at or after the current position; none exactly when something at or before every later page stops the search. */
  method FindPage(v: Vorb, t: seq<bv32>) returns (ok: bool, end: nat, last: bool)
    requires v.Valid() && |t| == 256 && !v.eof
    modifies v`pos, v`eof
    ensures v.Valid()
    ensures ok <==> exists p: nat :: Reachable(t, v.stream, old(v.pos), p)
    ensures ok ==>
      && First(t, v.stream, old(v.pos), v.pos) && Reachable(t, v.stream, old(v.pos), v.pos) && v.pos >= 24 && !v.eof
      && end == (if PageEnd(v.stream, v.pos) <= |v.stream| then PageEnd(v.stream, v.pos) else |v.stream|)
      && last == (v.stream[v.pos + 5] / 4 % 2 == 1)
  {
    hide Accepted, PageEnd, Stops;
    end, last := 0, false;
    while true
      invariant v.Valid() && old(v.pos) <= v.pos && (v.eof ==> v.pos == |v.stream|)
      invariant forall c: nat {:trigger Accepted(t, v.stream, c)} :: old(v.pos) <= c < v.pos ==> !Accepted(t, v.stream, c)
      invariant forall c: nat {:trigger Stops(v.stream, c)} :: old(v.pos) <= c < v.pos ==> !Stops(v.stream, c)
      decreases |v.stream| - v.pos, !v.eof
    {
      forall p: nat {:trigger Accepted(t, v.stream, p)} | p + HEADER > |v.stream| ensures !Accepted(t, v.stream, p) {
        NoneLater(t, v.stream, p);
      }
      if v.eof {
        return false, end, last;
      }
      ghost var p := v.pos;
      var n := v.Get8();
      if n == CAPTURE[0] {
        var verdict := TryCandidate(v, t);
        if verdict.Accept? {
          assert Reachable(t, v.stream, old(v.pos), p);
          return true, verdict.end, verdict.last;
        }
        if verdict.GiveUp? {
          return false, end, last;
        }
      } else {
        NoneLater(t, v.stream, p);
      }
    }
    ok := false;
  }

  /** On a stream in which no candidate is cut off, the search from behind the first bytes finds exactly the next page. */
  lemma FindsPages(t: seq<bv32>, s: seq<Byte>, from: nat)
    requires |t| == 256 && from >= 24 && forall c: nat {:trigger Cut(s, c)} :: from <= c ==> !Cut(s, c)
    ensures forall p: nat {:trigger Accepted(t, s, p)} :: from <= p ==> (Accepted(t, s, p) <==> IsPage(t, s, p))
    ensures forall c: nat {:trigger Stops(s, c)} :: from <= c ==> !Stops(s, c)
  {
    hide Cut, IsPage, Accepted, Abandoned;
    forall p: nat | from <= p ensures (Accepted(t, s, p) <==> IsPage(t, s, p)) && !Stops(s, p) {
      assert !Cut(s, p);
      WholeAccepted(t, s, p);
    }
  }

  // ----- a page that is not found -----

  function LowByte(w: bv32): (b: Byte)
  {
    IndexBack(w & 0xFF);
    (w & 0xFF) as int
  }

  /** The bytes of a checksum, lowest first. */
  function WordBytes(w: bv32): (r: seq<Byte>)
    ensures |r| == 4
  {
    [LowByte(w), LowByte(w >> 8), LowByte(w >> 16), LowByte(w >> 24)]
  }

  lemma WordBack(w: bv32)
    ensures var r := WordBytes(w); Word(r[0], r[1], r[2], r[3]) == w
  {
    IndexBack(w & 0xFF);
    IndexBack((w >> 8) & 0xFF);
    IndexBack((w >> 16) & 0xFF);
    IndexBack((w >> 24) & 0xFF);
    BytesAddUp(w);
  }

  lemma BytesAddUp(w: bv32)
    ensures (w & 0xFF) + (((w >> 8) & 0xFF) << 8) + (((w >> 16) & 0xFF) << 16) + (((w >> 24) & 0xFF) << 24) == w
  {}

  function Zeros(n: nat): (z: seq<Byte>)
    ensures |z| == n
  {
    seq(n, _ => 0)
  }

  /** A page without segments. */
  function EmptyPage(t: seq<bv32>): (page: seq<Byte>)
    requires |t| == 256
    ensures |page| == HEADER
  {
    CAPTURE + Zeros(18) + WordBytes(CrcOf(t, CAPTURE + Zeros(23))) + [0]
  }

  lemma EmptyPageIsPage(t: seq<bv32>, s: seq<Byte>, p: nat)
    requires |t| == 256 && p + HEADER <= |s| && s[p..p + HEADER] == EmptyPage(t)
    ensures IsPage(t, s, p) && Accepted(t, s, p)
  {
    var page := EmptyPage(t);
    var crc := CrcOf(t, CAPTURE + Zeros(23));
    WordBack(crc);
    hide CrcFrom, Word, WordBytes, LowByte;
    assert forall k {:trigger page[k]} :: 0 <= k < HEADER ==> s[p + k] == page[k];
    assert page[..4] == CAPTURE;
    assert s[p..p + 4] == s[p..p + HEADER][..4];
    assert Read(s, p, HEADER) == page;
    assert Cleared(page) == CAPTURE + Zeros(23);
    assert Read(s, p + HEADER, 0) == [];
    assert Cleared(page) + [] == CAPTURE + Zeros(23);
  }

  /** One capture byte in front of a page, too early in the stream: the page is there and the search does not find it. */
  lemma EarlyByteHidesPage(t: seq<bv32>)
    requires |t| == 256
    ensures var s := [CAPTURE[0]] + Zeros(23) + EmptyPage(t);
      IsPage(t, s, 24) && First(t, s, 0, 24) && !exists p: nat :: Reachable(t, s, 0, p)
  {
    var s := [CAPTURE[0]] + Zeros(23) + EmptyPage(t);
    assert s[24..24 + HEADER] == EmptyPage(t);
    EmptyPageIsPage(t, s, 24);
    hide EmptyPage, IsPage, Accepted, CrcFrom;
    forall c: nat {:trigger Accepted(t, s, c)} | c < 24 ensures !Accepted(t, s, c) {
      NotCaptured(t, s, c);
    }
    assert Stops(s, 0);
  }

  lemma NotCaptured(t: seq<bv32>, s: seq<Byte>, c: nat)
    requires |t| == 256 && c < 24 <= |s| && s[..24] == [CAPTURE[0]] + Zeros(23)
    ensures !Accepted(t, s, c)
  {
    assert s[c] == s[..24][c];
    if c == 0 {
      assert s[1] == s[..24][1];
      assert |s| >= 4 && s[0..4][1] != CAPTURE[1];
    } else {
      NoneLater(t, s, c);
    }
    hide PageEnd, CrcFrom, Word, Cleared;
  }
}
