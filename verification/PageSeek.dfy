/** The page-level search of a seek: interpolate twice, then bisect, then walk (RFC 3533, sections 5 and 6). */
module PageSeek {
  import OggWalk
  import PageFind
  import PageScan

  const UNKNOWN: nat := 0xFFFF_FFFF
  const MAX_PAGE: nat := 65307
  const NEAR: nat := 65536

  /** A page of the file, as a probe records it: where it lies, and the last sample completed on it. */
  datatype Page = Page(start: nat, end: nat, granule: nat)

  datatype Result = FromStart | Between(left: nat, right: nat) | SeekWithoutLength | SeekInvalid

  ghost predicate BackToBack(pages: seq<Page>)
  {
    && (forall i {:trigger pages[i].start} {:trigger pages[i].end} :: 0 <= i < |pages| ==> 27 <= pages[i].end - pages[i].start <= MAX_PAGE)
    && forall i {:trigger pages[i].end} :: 0 <= i < |pages| - 1 ==> pages[i].end == pages[i + 1].start
  }

  predicate Known(p: Page)
  {
    p.granule != UNKNOWN
  }

  lemma {:induction false} PagesInOrder(pages: seq<Page>, i: nat, j: nat)
    requires BackToBack(pages) && i < j < |pages|
    ensures pages[i].end <= pages[j].start && pages[i].start < pages[j].start
  {
    if i + 1 < j {
      PagesInOrder(pages, i, j - 1);
    }
  }

  lemma {:induction false} TotalBound(lacing: seq<OggWalk.Byte>)
    ensures 0 <= PageScan.Total(lacing) <= 255 * |lacing|
  {
    if lacing != [] {
      TotalBound(lacing[1..]);
    }
  }

  /** No page of a stream is longer: 27 bytes of header, 255 of segment table, 255 for each segment. */
  lemma PageFits(s: seq<OggWalk.Byte>, p: nat)
    requires PageScan.Candidate(s, p)
    ensures 27 <= PageScan.PageEnd(s, p) - p <= MAX_PAGE
  {
    hide PageScan.Total;
    TotalBound(PageScan.Read(s, p + OggWalk.HEADER, s[p + 26]));
  }

  // ----- finding and reading a page -----

  /** The search for a page from offset `pos`: the first one that starts there or later. */
  function FindPage(pages: seq<Page>, pos: nat): (i: nat)
    ensures i <= |pages|
    ensures i < |pages| ==> pages[i].start >= pos
    ensures forall k {:trigger pages[k].start} :: 0 <= k < i ==> pages[k].start < pos
  {
    FindPageFrom(pages, pos, 0)
  }

  function FindPageFrom(pages: seq<Page>, pos: nat, i: nat): (j: nat)
    requires i <= |pages|
    ensures i <= j <= |pages|
    ensures j < |pages| ==> pages[j].start >= pos
    ensures forall k {:trigger pages[k].start} :: i <= k < j ==> pages[k].start < pos
    decreases |pages| - i
  {
    if i == |pages| || pages[i].start >= pos then i else FindPageFrom(pages, pos, i + 1)
  }

  ghost predicate StartsAt(pages: seq<Page>, c: nat)
  {
    exists i {:trigger pages[i].start} :: 0 <= i < |pages| && pages[i].start == c
  }

  /** From byte 24 on the page starts are what the byte-level search accepts in the stream, and nothing stops it. */
  ghost predicate Paged(t: seq<bv32>, s: seq<OggWalk.Byte>, pages: seq<Page>)
    requires |t| == 256
  {
    && BackToBack(pages)
    && (forall c: nat {:trigger PageFind.Accepted(t, s, c)} :: 24 <= c ==> (PageFind.Accepted(t, s, c) <==> StartsAt(pages, c)))
    && forall c: nat {:trigger PageFind.Stops(s, c)} :: 24 <= c ==> !PageFind.Stops(s, c)
  }

  /** So the byte-level search comes to the page that this search counts on. */
  lemma FindPageIsSearch(t: seq<bv32>, s: seq<OggWalk.Byte>, pages: seq<Page>, pos: nat)
    requires |t| == 256 && Paged(t, s, pages) && pos >= 24
    ensures var i := FindPage(pages, pos);
      if i < |pages| then PageFind.First(t, s, pos, pages[i].start) && PageFind.Reachable(t, s, pos, pages[i].start)
      else !exists p: nat :: PageFind.Reachable(t, s, pos, p)
  {
    hide PageFind.Accepted, PageFind.Stops, StartsAt;
    var i := FindPage(pages, pos);
    forall c: nat {:trigger PageFind.Accepted(t, s, c)} | pos <= c && (i < |pages| ==> c < pages[i].start)
      ensures !PageFind.Accepted(t, s, c)
    {
      NoneStartsBetween(pages, pos, c);
    }
    if i < |pages| {
      StartIsStart(pages, i);
      assert PageFind.Accepted(t, s, pages[i].start);
    }
    hide BackToBack;
  }

  lemma StartIsStart(pages: seq<Page>, i: nat)
    requires i < |pages|
    ensures StartsAt(pages, pages[i].start)
  {}

  lemma NoneStartsBetween(pages: seq<Page>, pos: nat, c: nat)
    requires BackToBack(pages) && pos <= c
    requires var i := FindPage(pages, pos); i < |pages| ==> c < pages[i].start
    ensures !StartsAt(pages, c)
  {
    var i := FindPage(pages, pos);
    if k :| 0 <= k < |pages| && pages[k].start == c {
      if i < k {
        PagesInOrder(pages, i, k);
      }
    }
  }

  /** Every probe of a seek starts far enough into the stream for that. */
  lemma ProbesAreSearches(t: seq<bv32>, s: seq<OggWalk.Byte>, pages: seq<Page>, pos: nat, l: nat, r: nat)
    requires |t| == 256 && Paged(t, s, pages) && l < r < |pages| && pages[l].end <= pos
    requires pos + MAX_PAGE <= pages[r].start || pos == pages[l].end
    ensures var i := FindPage(pages, pos); l < i <= r && PageFind.First(t, s, pos, pages[i].start)
  {
    assert pages[l].end >= 27;
    FindPageIsSearch(t, s, pages, pos);
    if pos == pages[l].end {
      NextPage(pages, l);
    } else {
      ProbeLandsBetween(pages, pos, l, r);
    }
  }

  /** Pages that are all of the stream's pages, in a stream where no candidate is cut off, are such pages. */
  lemma WholePagesArePaged(t: seq<bv32>, s: seq<OggWalk.Byte>, pages: seq<Page>)
    requires |t| == 256 && BackToBack(pages) && forall c: nat {:trigger PageScan.Cut(s, c)} :: 24 <= c ==> !PageScan.Cut(s, c)
    requires forall c: nat {:trigger PageScan.IsPage(t, s, c)} :: 24 <= c ==> (PageScan.IsPage(t, s, c) <==> StartsAt(pages, c))
    ensures Paged(t, s, pages)
  {
    hide PageFind.Accepted, PageFind.Stops, PageScan.IsPage, PageScan.Cut;
    PageFind.FindsPages(t, s, 24);
  }

  /** From anywhere at least a whole page before page `r`, and not before the end of page `l`, the search stops between them. */
  lemma ProbeLandsBetween(pages: seq<Page>, pos: nat, l: nat, r: nat)
    requires BackToBack(pages) && l < r < |pages| && pages[l].end <= pos && pos + MAX_PAGE <= pages[r].start
    ensures l < FindPage(pages, pos) < r
  {
    var i := FindPage(pages, pos);
    assert pages[l].start < pos <= pages[r].start;
    assert pages[r - 1].end == pages[r].start && pages[r - 1].start < pages[r].start;
    assert pages[r - 1].start >= pos;
    if i < l {
      PagesInOrder(pages, i, l);
    }
  }

  lemma NextPage(pages: seq<Page>, l: nat)
    requires BackToBack(pages) && l + 1 < |pages|
    ensures FindPage(pages, pages[l].end) == l + 1
  {
    var i := FindPage(pages, pages[l].end);
    assert pages[l].end == pages[l + 1].start && pages[l].start < pages[l].end;
    if i < l {
      PagesInOrder(pages, i, l);
    }
  }

  // ----- probes -----

  /** Keeps an interpolated offset, however far off it is, where a page between the two can be found from it. */
  function Clamp(offset: real, low: nat, high: nat): (r: real)
    requires low + 65536 < high
    ensures low as real <= r <= (high - 65536) as real
    ensures low as real <= offset <= (high - 65536) as real ==> r == offset
  {
    var o := if offset < low as real then low as real else offset;
    if o > (high - NEAR) as real then (high - NEAR) as real else o
  }

  /** The truncation of a clamped offset. */
  function ToByte(r: real, low: nat, high: nat): (pos: nat)
    requires low as real <= r <= high as real
    ensures low <= pos <= high
  {
    r.Floor
  }

  /** Where the next probe starts: the first two interpolate, the later ones bisect. */
  method Probe(pages: seq<Page>, l: nat, r: nat, mid: Page, limit: nat, probe: nat, offset: real, bytesPerSample: real)
    returns (pos: nat, offset': real, bytesPerSample': real)
    requires BackToBack(pages) && l < r < |pages| && pages[r].start - pages[l].end > NEAR
    requires pages[l].granule <= limit <= pages[r].granule && pages[r].granule > 0
    ensures pages[l].end <= pos && pos + NEAR <= pages[r].start
  {
    var left, right := pages[l], pages[r];
    offset', bytesPerSample' := offset, bytesPerSample;
    var delta := right.start - left.end;
    if probe < 2 {
      if probe == 0 {
        var dataBytes := (right.end - left.start) as real;
        bytesPerSample' := dataBytes / right.granule as real;
        offset' := left.start as real + bytesPerSample' * (limit - left.granule) as real;
      } else {
        var error := (limit - mid.granule) as real * bytesPerSample;
        if 0.0 <= error < 8000.0 {
          error := 8000.0;
        }
        if -8000.0 < error < 0.0 {
          error := -8000.0;
        }
        offset' := offset + error * 2.0;
      }
      offset' := Clamp(offset', left.end, right.start);
      pos := ToByte(offset', left.end, right.start - NEAR);
    } else {
      pos := left.end + delta / 2 - 32768;
    }
  }

  /** From page `i` on, the first page on which a frame ends; `r` bounds the walk. */
  method SkipUnknown(pages: seq<Page>, i: nat, r: nat) returns (m: nat)
    requires i <= r < |pages| && Known(pages[r])
    ensures i <= m <= r && Known(pages[m]) && forall k {:trigger pages[k]} :: i <= k < m ==> !Known(pages[k])
  {
    m := i;
    while !Known(pages[m])
      invariant i <= m <= r && forall k {:trigger pages[k]} :: i <= k < m ==> !Known(pages[k])
      decreases r - m
    {
      m := m + 1;
    }
  }

  // ----- the search -----

  /** The searched sample lies between two pages with known positions. */
  ghost predicate Bracket(pages: seq<Page>, limit: nat, l: nat, r: nat)
  {
    l < r < |pages| && Known(pages[l]) && Known(pages[r]) && pages[l].granule <= limit <= pages[r].granule
  }

  /** Nothing better than this bracket was found: it is tight, or only pages without a position precede its right end. */
  ghost predicate Settled(pages: seq<Page>, l: nat, r: nat)
    requires l < r < |pages|
  {
    r == l + 1 || (!Known(pages[r - 1]) &&
      (pages[r].start - pages[l].end <= NEAR ==> forall k {:trigger pages[k]} :: l < k < r ==> !Known(pages[k])))
  }

  lemma TightWhenKnown(pages: seq<Page>, l: nat, r: nat)
    requires l < r < |pages| && Settled(pages, l, r) && forall k {:trigger pages[k]} :: 0 <= k < |pages| ==> Known(pages[k])
    ensures r == l + 1
  {
    assert Known(pages[r - 1]);
  }

  lemma LeftEndsFirst(pages: seq<Page>, l: nat, r: nat)
    requires BackToBack(pages) && l < r < |pages|
    ensures pages[l].end <= pages[r].start && (pages[l].end == pages[r].start <==> r == l + 1)
  {
    PagesInOrder(pages, l, r);
    if l + 1 < r {
      PagesInOrder(pages, l + 1, r);
      assert pages[l].end == pages[l + 1].start;
    } else {
      assert pages[l].end == pages[r].start;
    }
  }

  /** Only pages without a position were found before the right end. */
  lemma NothingBetween(pages: seq<Page>, l: nat, r: nat, i: nat, delta: nat)
    requires l < i <= r < |pages| && pages[l].end <= pages[r].start && delta == pages[r].start - pages[l].end
    requires i < r || r == l + 1
    requires delta <= NEAR ==> i == l + 1
    requires forall k {:trigger pages[k]} :: i <= k < r ==> !Known(pages[k])
    ensures Settled(pages, l, r)
  {}

  method Search(pages: seq<Page>, first: nat, limit: nat) returns (l: nat, r: nat)
    requires BackToBack(pages) && first + 1 < |pages| && Bracket(pages, limit, first, |pages| - 1) && pages[first].granule < limit
    ensures Bracket(pages, limit, l, r) && first <= l && Settled(pages, l, r)
  {
    l, r := first, |pages| - 1;
    var mid := pages[l];
    var offset, bytesPerSample := 0.0, 0.0;
    var probe := 0;
    LeftEndsFirst(pages, l, r);
    while pages[l].end != pages[r].start
      invariant first <= l && Bracket(pages, limit, l, r) && pages[r].granule > 0
      invariant pages[l].end <= pages[r].start && (pages[l].end == pages[r].start <==> r == l + 1)
      decreases r - l, 2 - probe
    {
      hide BackToBack, Settled, Known;
      var delta := pages[r].start - pages[l].end;
      var pos;
      if delta <= NEAR {
        pos := pages[l].end;
        NextPage(pages, l);
      } else {
        pos, offset, bytesPerSample := Probe(pages, l, r, mid, limit, probe, offset, bytesPerSample);
        ProbeLandsBetween(pages, pos, l, r);
      }
      var i := FindPage(pages, pos);
      var m := SkipUnknown(pages, i, r);
      mid := pages[m];
      if m == r {
        if probe >= 2 || delta <= NEAR {
          NothingBetween(pages, l, r, i, delta);
          return;
        }
      } else {
        if limit < mid.granule {
          r := m;
        } else {
          l := m;
        }
        LeftEndsFirst(pages, l, r);
      }
      probe := probe + 1;
    }
  }

  /** How far before the wanted sample the search aims: the centre of a window, not its end. */
  function Limit(sample: nat, padding: nat): nat
  {
    if sample < padding then 0 else sample - padding
  }

  /** Whether page `k` is the first on which a frame ends. */
  ghost predicate FirstKnown(pages: seq<Page>, k: nat)
  {
    k < |pages| && pages[k].granule != 0xFFFF_FFFF && forall j {:trigger pages[j]} :: 0 <= j < k ==> pages[j].granule == 0xFFFF_FFFF
  }

  lemma OneFirstKnown(pages: seq<Page>, first: nat)
    requires FirstKnown(pages, first)
    ensures forall k: nat {:trigger FirstKnown(pages, k)} :: FirstKnown(pages, k) ==> k == first
  {}

  method SeekCoarse(pages: seq<Page>, sample: nat, padding: nat) returns (res: Result)
    requires BackToBack(pages) && pages != [] && Known(pages[|pages| - 1])
    ensures res.SeekWithoutLength? <==> pages[|pages| - 1].granule == 0
    ensures res.SeekInvalid? <==> 0 < pages[|pages| - 1].granule < sample
    ensures res.FromStart? <==>
      && sample <= pages[|pages| - 1].granule != 0
      && exists k: nat :: FirstKnown(pages, k) && sample <= pages[k].granule + padding
    ensures res.Between? ==>
      && res.left < res.right < |pages| && pages[res.left].granule != 0xFFFF_FFFF && pages[res.right].granule != 0xFFFF_FFFF
      && pages[res.left].granule + padding <= sample <= pages[res.right].granule + padding
    ensures res.Between? ==>
      && Bracket(pages, Limit(sample, padding), res.left, res.right)
      && Settled(pages, res.left, res.right)
    ensures res.Between? && (forall k {:trigger pages[k]} :: 0 <= k < |pages| ==> Known(pages[k])) ==> res.right == res.left + 1
  {
    hide Settled;
    var length := pages[|pages| - 1].granule;
    if length == 0 {
      return SeekWithoutLength;
    }
    if sample > length {
      return SeekInvalid;
    }
    var limit := Limit(sample, padding);
    var first := SkipUnknown(pages, 0, |pages| - 1);
    assert FirstKnown(pages, first);
    OneFirstKnown(pages, first);
    if limit <= pages[first].granule {
      return FromStart;
    }
    var l, r := Search(pages, first, limit);
    if forall k {:trigger pages[k]} :: 0 <= k < |pages| ==> Known(pages[k]) {
      TightWhenKnown(pages, l, r);
    }
    res := Between(l, r);
  }
}
