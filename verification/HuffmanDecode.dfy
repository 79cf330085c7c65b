/** Decoding one symbol from the packet. */
module HuffmanDecode {
  import opened Bits
  import opened CodeMap
  import opened Codebooks
  import opened CodebookTables
  import opened OggReader
  import opened BitString
  import opened BitReader
  import opened HuffmanLookup

  /** The reader's segment buffer is not one of the codebook's tables. */
  ghost predicate Separate(f: Vorb, c: Codebook)
    reads c
  {
    f.segments as object !in {c.codewords as object?, c.codewordLengths, c.sortedCodewords, c.sortedValues, c.fastHuffman}
  }

  /** The accumulator shows the front of the unread bits. */
  lemma AccumulatorShows(f: Vorb)
    requires Tidy(f) && (f.validBits == 0 ==> f.acc == 0)
    ensures Shows(f.acc, f.validBits, BitsLeft(f)) && f.acc < WORD
  {
    hide Vorb.PacketRest;
    Pow2Values();
    Pow2Monotone(f.validBits, 32);
  }

  lemma SpentShows(f: Vorb)
    requires Spent(f)
    ensures f.acc < WORD
  {
    Pow2Values();
  }

  /** Drops a codeword of `len` bits if that many are valid. */
  method TryTake(f: Vorb, len: nat) returns (ok: bool)
    requires Tidy(f) || Spent(f)
    modifies f`acc, f`validBits
    ensures Tidy(f) && ok == (len <= old(f.validBits))
    ensures ok ==> BitsLeft(f) == old(BitsLeft(f))[len..]
    ensures !ok ==> f.validBits == 0
    ensures f.PacketRest() == old(f.PacketRest())
  {
    hide Vorb.PacketRest, Unread;
    ghost var p := f.PacketRest();
    if f.validBits >= len {
      HeldLength(f);
      var z := TakeBits(f, len);
      ok := true;
    } else {
      f.validBits := 0;
      ok := false;
    }
    assert f.PacketRest() == p;
  }

  /**
   The outcome of decoding with `bits` left of which `reach` can be seen: the entry of the symbol whose
   codeword comes next, that codeword being consumed; or -1 if the codeword does not fit.
   */
  ghost predicate Decoded(c: Codebook, code: Code, bits: seq<bool>, reach: nat, x: int, f: Vorb)
    requires Tidy(f) && reach <= |bits|
    reads c, c.sortedValues, f, f.segments
  {
    forall s {:trigger Hit(code, s, Ahead32(bits))} :: Hit(code, s, Ahead32(bits)) ==>
      if code[s].len <= reach then IsEntry(c, code, x) && SymbolAt(c, x) == s && BitsLeft(f) == bits[code[s].len..]
      else CompleteCode(code) ==> x == -1 && f.validBits == 0
  }

  /** A decode after a read past the end finds nothing. The mark is lost, unless the book stores no codewords at all. */
  ghost predicate SpentDecode(c: Codebook, x: int, f: Vorb)
    reads c, f
  {
    x == -1 && if c.codewords == null && c.sortedCodewords == null then Spent(f) else Tidy(f) && f.validBits == 0
  }

  /** Refilling shows nothing a shorter view did not: a short codeword missed before is not there after. */
  lemma StillNoShortHit(c: Codebook, code: Code, a: nat, v: nat, bits: seq<bool>)
    requires ValidCode(code) && Shows(a, v, bits) && (v == |bits| || v >= FAST_LEN)
    ensures NoShortHit(c, code, a) <==> NoShortHit(c, code, Ahead32(bits))
  {
    var w := Ahead32(bits);
    forall s: nat | Hit(code, s, w) || Hit(code, s, a)
      ensures !InSort(c, code, s) ==> (Hit(code, s, a) <==> Hit(code, s, w))
    {
      assert NodeOf(code, s);
      if !InSort(c, code, s) {
        ShownMatch(code[s], a, v, bits);
      }
    }
  }

  /** What an answer found in an accumulator of `v` bits says about the packet. */
  lemma AnswerMeansDecoded(c: Codebook, code: Code, a: nat, v: nat, bits: seq<bool>, i: int)
    requires ValidCode(code) && Shows(a, v, bits) && a < WORD && Finds(c, code, a, i)
    ensures forall s {:trigger Hit(code, s, Ahead32(bits))} :: Hit(code, s, Ahead32(bits)) && code[s].len <= v ==>
      IsEntry(c, code, i) && SymbolAt(c, i) == s
    ensures CompleteCode(code) ==>
      forall s {:trigger Hit(code, s, Ahead32(bits))} :: Hit(code, s, Ahead32(bits)) && code[s].len > v ==>
        IsEntry(c, code, i) && code[SymbolAt(c, i)].len > v
  {
    forall s {:trigger Hit(code, s, Ahead32(bits))} | Hit(code, s, Ahead32(bits)) && code[s].len <= v
      ensures Hit(code, s, a)
    {
      assert NodeOf(code, s);
      ShownMatch(code[s], a, v, bits);
    }
    if CompleteCode(code) {
      assert HitsSome(code, a);
      var t :| Hit(code, t, a);
      assert NodeOf(code, t);
      if code[t].len <= v {
        ShownMatch(code[t], a, v, bits);
        Ahead32Bits(bits);
        forall s {:trigger Hit(code, s, Ahead32(bits))} | Hit(code, s, Ahead32(bits))
          ensures s == t
        {
          HitUnique(code, s, t, Ahead32(bits));
        }
      }
    }
  }

  /** Binary search where the book has sorted codewords for it, else the linear scan; -1 if that scan finds nothing. */
  method LookupSlow(c: Codebook, ghost code: Code, acc: nat) returns (i: int)
    requires Ready(c, code) && acc < WORD && (c.codewords != null || c.sortedCodewords != null)
    ensures i == -1 || IsEntry(c, code, i)
    ensures NoShortHit(c, code, acc) ==> Finds(c, code, acc, i)
  {
    hide FastTable, SortedTables, DenseTables;
    if (if c.entries > 8 then c.sortedCodewords != null else c.codewords == null) {
      i := SearchBook(c, code, acc);
    } else {
      assert !c.sparse;
      i := ScanBook(c, code, acc);
    }
  }

  /** Takes the entry that a slow lookup finds in the refilled accumulator. */
  method DecodeShown(f: Vorb, c: Codebook, ghost code: Code) returns (x: int)
    requires (Tidy(f) && (f.validBits == 0 ==> f.acc == 0)) || Spent(f)
    requires Ready(c, code)
    modifies f`acc, f`validBits, f`error
    ensures f.Valid() && (x == -1 || IsEntry(c, code, x)) && f.PacketRest() == old(f.PacketRest())
    ensures old(Tidy(f)) ==> Tidy(f)
    ensures old(Tidy(f)) && NoShortHit(c, code, old(f.acc)) ==> Decoded(c, code, old(BitsLeft(f)), old(f.validBits), x, f)
    ensures old(Spent(f)) ==> SpentDecode(c, x, f)
  {
    hide Vorb.PacketRest, Unread, FastTable, SortedTables, DenseTables, Finds, NoShortHit, Pow2, Shows, CompleteCode;
    ghost var tidy := Tidy(f);
    ghost var a, v, bits := f.acc, f.validBits, if tidy then BitsLeft(f) else [];
    if tidy {
      AccumulatorShows(f);
    } else {
      SpentShows(f);
    }
    if c.codewords == null && c.sortedCodewords == null {
      NothingStored(c, code);
      return -1;
    }
    x := LookupSlow(c, code, f.acc);
    if tidy && NoShortHit(c, code, a) {
      AnswerMeansDecoded(c, code, a, v, bits, x);
    }
    if x == -1 {
      f.error := InvalidStream;
      f.validBits := 0;
      return;
    }
    EntryLength(c, code, x);
    var ok := TryTake(f, c.codewordLengths[x]);
    if !ok {
      x := -1;
    }
  }

  /** The decoder's slow path, entered when the fast table has no answer. */
  method DecodeScalarRaw(f: Vorb, c: Codebook, ghost code: Code) returns (x: int)
    requires (Tidy(f) || Spent(f)) && Ready(c, code) && Separate(f, c)
    modifies f`acc, f`validBits, f`pos, f`eof, f`error, f`pageFlag, f`segmentCount, f`nextSeg, f`lastSeg, f`bytesInSeg, f.segments
    ensures f.Valid() && (old(Tidy(f)) ==> Tidy(f)) && (x == -1 || IsEntry(c, code, x))
    ensures SamePacket(old(f.PacketRest()), old(f.eof), f)
    ensures old(Spent(f)) ==> SpentDecode(c, x, f)
    ensures old(Tidy(f)) && old(Sound(f)) && NoShortHit(c, code, Ahead32(old(BitsLeft(f)))) ==>
      var bits := old(BitsLeft(f));
      Decoded(c, code, bits, Reach(old(f.validBits), |bits|), x, f)
  {
    hide Vorb.PacketRest, Unread, FastTable, SortedTables, DenseTables, Decoded, NoShortHit;
    ghost var tidy := Tidy(f);
    ghost var sound := tidy && Sound(f);
    PrepHuffman(f);
    if tidy {
      AccumulatorShows(f);
    }
    if sound {
      StillNoShortHit(c, code, f.acc, f.validBits, BitsLeft(f));
    }
    x := DecodeShown(f, c, code);
  }

  lemma ReachTwice(v: nat, total: nat)
    requires v <= total
    ensures v <= Reach(v, total) <= total && Reach(Reach(v, total), total) == Reach(v, total)
  {}

  /** What an answer of the fast table says about the packet. */
  lemma FastAnswer(c: Codebook, code: Code, a: nat, v: nat, bits: seq<bool>, i: int)
    requires ValidCode(code) && Shows(a, v, bits) && (v == |bits| || v >= FAST_LEN) && IsEntry(c, code, i)
    requires Hit(code, SymbolAt(c, i), a) && code[SymbolAt(c, i)].len <= FAST_LEN
    ensures forall s {:trigger Hit(code, s, Ahead32(bits))} :: Hit(code, s, Ahead32(bits)) ==> s == SymbolAt(c, i)
  {
    var t: nat := SymbolAt(c, i);
    assert NodeOf(code, t);
    ShownMatch(code[t], a, v, bits);
    Ahead32Bits(bits);
    forall s {:trigger Hit(code, s, Ahead32(bits))} | Hit(code, s, Ahead32(bits))
      ensures s == t
    {
      HitUnique(code, s, t, Ahead32(bits));
    }
  }

  /** Shifts a codeword out at once; too few valid bits show only afterwards. */
  method TakeFast(f: Vorb, n: nat) returns (ok: bool)
    requires Tidy(f) || Spent(f)
    modifies f`acc, f`validBits
    ensures Tidy(f) && ok == (n <= old(f.validBits)) && f.PacketRest() == old(f.PacketRest())
    ensures ok ==> BitsLeft(f) == old(BitsLeft(f))[n..]
    ensures !ok ==> f.validBits == 0
  {
    hide Vorb.PacketRest, Unread;
    ghost var p := f.PacketRest();
    if n <= f.validBits {
      HeldLength(f);
      var z := TakeBits(f, n);
      ok := true;
    } else {
      f.acc := ShiftRight(f.acc, n);
      f.validBits := f.validBits - n;
      if f.validBits < 0 {
        f.validBits := 0;
      }
      ok := false;
    }
    assert f.PacketRest() == p;
  }

  lemma EntryStored(c: Codebook, code: Code, i: int)
    requires Ready(c, code) && IsEntry(c, code, i)
    ensures c.codewords != null || c.sortedCodewords != null
  {
    if c.codewords == null && c.sortedCodewords == null {
      NothingStored(c, code);
    }
  }

  /** The fast table's answer for the bits in view, taken; -2 stands for no answer. */
  method DecodeFast(f: Vorb, c: Codebook, ghost code: Code) returns (x: int)
    requires (Tidy(f) && (f.validBits == 0 ==> f.acc == 0)) || Spent(f)
    requires Ready(c, code) && FastListsShort(c, code)
    modifies f`acc, f`validBits
    ensures f.Valid() && (x == -2 || x == -1 || IsEntry(c, code, x)) && f.PacketRest() == old(f.PacketRest())
    ensures x == -2 ==> f.validBits == old(f.validBits) && f.acc == old(f.acc)
    ensures x != -2 ==> Tidy(f)
    ensures old(Spent(f)) && x != -2 ==> SpentDecode(c, x, f)
    ensures old(Tidy(f)) ==> Tidy(f) && (x == -2 ==> BitsLeft(f) == old(BitsLeft(f)))
    ensures old(Tidy(f)) ==> var bits, v := old(BitsLeft(f)), old(f.validBits);
      v == |bits| || v >= FAST_LEN ==>
        if x == -2 then NoShortHit(c, code, Ahead32(bits))
        else forall reach :: v <= reach <= |bits| && (v >= FAST_LEN || reach == v) ==> Decoded(c, code, bits, reach, x, f)
  {
    hide Vorb.PacketRest, Unread, FastTable, SortedTables, DenseTables, Finds, NoShortHit, FastListsShort;
    ghost var tidy := Tidy(f);
    ghost var a, v, bits := f.acc, f.validBits, if tidy then BitsLeft(f) else [];
    if tidy {
      AccumulatorShows(f);
    } else {
      SpentShows(f);
    }
    x := LookupFast(c, code, f.acc);
    if x < 0 {
      if tidy && (v == |bits| || v >= FAST_LEN) {
        StillNoShortHit(c, code, a, v, bits);
      }
      return -2;
    }
    EntryLength(c, code, x);
    EntryStored(c, code, x);
    if tidy && (v == |bits| || v >= FAST_LEN) {
      FastAnswer(c, code, a, v, bits, x);
    }
    var ok := TakeFast(f, c.codewordLengths[x]);
    if !ok {
      x := -1;
    }
  }

  /** Decodes one entry: the fast table first, then the slow path. */
  method DecodeRaw(f: Vorb, c: Codebook, ghost code: Code) returns (x: int)
    requires (Tidy(f) || Spent(f)) && Ready(c, code) && FastListsShort(c, code) && Separate(f, c)
    modifies f`acc, f`validBits, f`pos, f`eof, f`error, f`pageFlag, f`segmentCount, f`nextSeg, f`lastSeg, f`bytesInSeg, f.segments
    ensures f.Valid() && (old(Tidy(f)) ==> Tidy(f)) && (x == -1 || IsEntry(c, code, x))
    ensures SamePacket(old(f.PacketRest()), old(f.eof), f)
    ensures old(Spent(f)) ==> SpentDecode(c, x, f)
    ensures old(Tidy(f)) && old(Sound(f)) ==>
      var bits := old(BitsLeft(f));
      Decoded(c, code, bits, Reach(old(f.validBits), |bits|), x, f)
  {
    hide Vorb.PacketRest, Unread, FastTable, SortedTables, DenseTables, NoShortHit, FastListsShort, Decoded;
    if Tidy(f) {
      HeldLength(f);
      ReachTwice(f.validBits, |BitsLeft(f)|);
    }
    if f.validBits < FAST_LEN {
      PrepHuffman(f);
    }
    x := DecodeFast(f, c, code);
    if x == -2 {
      x := DecodeScalarRaw(f, c, code);
    }
  }
}
