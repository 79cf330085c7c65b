/** Looking for the next page of the stream: the capture pattern, version 0, and a checksum that matches. */
module PageScan {
  import opened OggWalk
  import opened OggReader
  import opened Crc

  // ----- what a page is -----

  function Total(lacing: seq<Byte>): (n: nat)
  {
    if lacing == [] then 0 else lacing[0] + Total(lacing[1..])
  }

  lemma {:induction false} TotalNext(lacing: seq<Byte>, b: Byte)
    ensures Total(lacing + [b]) == Total(lacing) + b
  {
    if lacing != [] {
      TotalNext(lacing[1..], b);
      assert (lacing + [b])[1..] == lacing[1..] + [b];
    }
  }

  /** `n` bytes from `p`, with zeros past the end, as reading delivers them. */
  function Read(s: seq<Byte>, p: nat, n: nat): (r: seq<Byte>)
    ensures |r| == n && forall i {:trigger r[i]} :: 0 <= i < n ==> r[i] == if p + i < |s| then s[p + i] else 0
  {
    seq(n, i requires 0 <= i < n => if p + i < |s| then s[p + i] else 0)
  }

  lemma ReadNext(s: seq<Byte>, p: nat, n: nat)
    ensures Read(s, p, n + 1) == Read(s, p, n) + Read(s, p + n, 1)
  {}

  lemma ReadInside(s: seq<Byte>, p: nat, n: nat)
    requires p + n <= |s|
    ensures Read(s, p, n) == s[p..p + n]
  {}

  function Word(b0: Byte, b1: Byte, b2: Byte, b3: Byte): bv32
  {
    AsWord(b0) + (AsWord(b1) << 8) + (AsWord(b2) << 16) + (AsWord(b3) << 24)
  }

  /** The checksum stored in a header. */
  function Stored(header: seq<Byte>): bv32
    requires |header| == HEADER
  {
    Word(header[22], header[23], header[24], header[25])
  }

  function Cleared(header: seq<Byte>): (h: seq<Byte>)
    requires |header| == HEADER
    ensures |h| == HEADER
  {
    header[22 := 0][23 := 0][24 := 0][25 := 0]
  }

  /** A header of version 0 stands at `p`. */
  ghost predicate Candidate(s: seq<Byte>, p: nat)
  {
    p + HEADER <= |s| && s[p..p + 4] == CAPTURE && s[p + 4] == 0
  }

  ghost function BodyLength(s: seq<Byte>, p: nat): nat
    requires Candidate(s, p)
  {
    Total(Read(s, p + HEADER, s[p + 26]))
  }

  ghost function PageEnd(s: seq<Byte>, p: nat): nat
    requires Candidate(s, p)
  {
    p + HEADER + s[p + 26] + BodyLength(s, p)
  }

  /** The candidate's segment table or its body goes past the end of the stream. */
  ghost predicate Cut(s: seq<Byte>, p: nat)
  {
    Candidate(s, p) && PageEnd(s, p) > |s|
  }

  ghost predicate TableCut(s: seq<Byte>, p: nat)
  {
    Candidate(s, p) && p + HEADER + s[p + 26] > |s|
  }

  /** The checksum of the candidate's bytes, with its checksum field zeroed, is the one it stores. */
  ghost predicate ChecksumFits(t: seq<bv32>, s: seq<Byte>, p: nat)
    requires |t| == 256
  {
    Candidate(s, p) &&
    CrcOf(t, Cleared(Read(s, p, HEADER)) + Read(s, p + HEADER, PageEnd(s, p) - p - HEADER)) == Stored(Read(s, p, HEADER))
  }

  /** A page of the stream (RFC 3533, section 6). */
  ghost predicate IsPage(t: seq<bv32>, s: seq<Byte>, p: nat)
    requires |t| == 256
  {
    Candidate(s, p) && PageEnd(s, p) <= |s| && ChecksumFits(t, s, p)
  }

  /** The same in terms of the page's own bytes. */
  lemma PageBytes(t: seq<bv32>, s: seq<Byte>, p: nat)
    requires |t| == 256 && Candidate(s, p) && PageEnd(s, p) <= |s|
    ensures var page := s[p..PageEnd(s, p)];
      IsPage(t, s, p) <==> CrcOf(t, page[..22] + [0, 0, 0, 0] + page[26..]) == Word(page[22], page[23], page[24], page[25])
  {
    hide Total, CrcFrom, Word;
    var page := s[p..PageEnd(s, p)];
    var h := Read(s, p, HEADER);
    ReadInside(s, p, HEADER);
    ReadInside(s, p + HEADER, PageEnd(s, p) - p - HEADER);
    assert Cleared(h) + Read(s, p + HEADER, PageEnd(s, p) - p - HEADER) == page[..22] + [0, 0, 0, 0] + page[26..];
  }

  // ----- reading -----

  method ReadBytes(v: Vorb, n: nat) returns (bytes: seq<Byte>)
    requires v.Valid()
    modifies v`pos, v`eof
    ensures v.Valid() && bytes == Read(v.stream, old(v.pos), n)
    ensures v.pos == if old(v.pos) + n <= |v.stream| then old(v.pos) + n else |v.stream|
    ensures v.eof <==> old(v.eof) || old(v.pos) + n > |v.stream|
  {
    bytes := [];
    for i := 0 to n
      invariant v.Valid() && bytes == Read(v.stream, old(v.pos), i)
      invariant v.pos == if old(v.pos) + i <= |v.stream| then old(v.pos) + i else |v.stream|
      invariant v.eof <==> old(v.eof) || old(v.pos) + i > |v.stream|
    {
      ReadNext(v.stream, old(v.pos), i);
      var b := v.Get8();
      bytes := bytes + [b];
    }
  }

  lemma CrcNext(t: seq<bv32>, crc: bv32, m: seq<Byte>, b: Byte)
    requires |t| == 256
    ensures CrcFrom(t, crc, m + [b]) == Update(t, CrcFrom(t, crc, m), AsWord(b))
  {
    hide Update;
    CrcConcat(t, crc, m, [b]);
    var c := CrcFrom(t, crc, m);
    assert CrcFrom(t, Update(t, c, AsWord(b)), []) == Update(t, c, AsWord(b));
    assert [b][1..] == [];
  }

  /** Reads `n` bytes into the checksum; `sum` is what they add up to. */
  method ChecksumBytes(v: Vorb, t: seq<bv32>, crc0: bv32, n: nat) returns (crc: bv32, sum: nat)
    requires v.Valid() && |t| == 256
    modifies v`pos, v`eof
    ensures v.Valid()
    ensures crc == CrcFrom(t, crc0, Read(v.stream, old(v.pos), n)) && sum == Total(Read(v.stream, old(v.pos), n))
    ensures v.pos == if old(v.pos) + n <= |v.stream| then old(v.pos) + n else |v.stream|
    ensures v.eof <==> old(v.eof) || old(v.pos) + n > |v.stream|
  {
    crc, sum := crc0, 0;
    for i := 0 to n
      invariant v.Valid()
      invariant crc == CrcFrom(t, crc0, Read(v.stream, old(v.pos), i)) && sum == Total(Read(v.stream, old(v.pos), i))
      invariant v.pos == if old(v.pos) + i <= |v.stream| then old(v.pos) + i else |v.stream|
      invariant v.eof <==> old(v.eof) || old(v.pos) + i > |v.stream|
    {
      hide Update, CrcFrom, Total;
      ReadNext(v.stream, old(v.pos), i);
      var b := v.Get8();
      assert Read(v.stream, old(v.pos) + i, 1) == [b];
      CrcNext(t, crc0, Read(v.stream, old(v.pos), i), b);
      TotalNext(Read(v.stream, old(v.pos), i), b);
      crc := Update(t, crc, AsWord(b));
      sum := sum + b;
    }
  }
}
