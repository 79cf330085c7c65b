/** Decoding undoes coding: symbols and plain numbers packed into a packet are read back in order. */
module DecodeStream {
  import opened Bits
  import opened CodeMap
  import opened Codebooks
  import opened CodebookTables
  import opened OggReader
  import opened BitString
  import opened BitReader
  import opened HuffmanLookup
  import opened HuffmanDecode

  /** The codeword of `s` comes next and lies within the `reach` bits that can be seen at once. */
  ghost predicate Next(code: Code, s: nat, bits: seq<bool>, reach: nat)
  {
    s in code && CodeBits(code[s]) <= bits && code[s].len <= reach
  }

  /** In a sparse book -1 is looked up among the sorted values, which are there only if some codeword is used. */
  ghost predicate CanDecode(c: Codebook)
    reads c`sparse, c`sortedEntries
  {
    c.sparse ==> c.sortedEntries > 0
  }

  lemma CanDecodeUsed(c: Codebook, code: Code)
    requires Ready(c, code)
    ensures CanDecode(c) <==> !c.sparse || code != map[]
    ensures CanDecode(c) ==> c.codewords != null || c.sortedCodewords != null
  {
    if c.sparse && c.sortedEntries > 0 {
      assert SortedAt(c, code, 0);
    }
    if c.sparse && code != map[] {
      var s :| s in code;
      assert InSort(c, code, s);
      assert Placed(c, s);
    }
  }

  /** Decodes one symbol; -1 when the packet ends before its codeword does, or ended before. */
  method Decode(f: Vorb, c: Codebook, ghost code: Code) returns (v: int)
    requires (Tidy(f) || Spent(f)) && Ready(c, code) && FastListsShort(c, code) && Separate(f, c) && CanDecode(c)
    modifies f`acc, f`validBits, f`pos, f`eof, f`error, f`pageFlag, f`segmentCount, f`nextSeg, f`lastSeg, f`bytesInSeg, f.segments
    ensures f.Valid() && (old(Tidy(f)) ==> Tidy(f)) && (v == -1 || v in code)
    ensures SamePacket(old(f.PacketRest()), old(f.eof), f)
    ensures old(Spent(f)) ==> v == -1 && Tidy(f) && f.validBits == 0
    ensures old(Tidy(f)) && old(Sound(f)) ==>
      var bits := old(BitsLeft(f));
      var reach := Reach(old(f.validBits), |bits|);
      && (forall s {:trigger Next(code, s, bits, reach)} :: Next(code, s, bits, reach) ==> v == s && BitsLeft(f) == bits[code[s].len..])
      && (CompleteCode(code) && v == -1 ==> f.validBits == 0)
      && (CompleteCode(code) && v != -1 ==> Next(code, v, bits, reach))
  {
    hide Vorb.PacketRest, Unread, FastTable, SortedTables, DenseTables, FastListsShort, Decoded;
    ghost var sound := Tidy(f) && Sound(f);
    ghost var bits := if sound then BitsLeft(f) else [];
    ghost var reach := if sound then Reach(f.validBits, |bits|) else 0;
    if sound {
      HeldLength(f);
    }
    CanDecodeUsed(c, code);
    v := DecodeRaw(f, c, code);
    if sound {
      SymbolDecoded(f, c, code, bits, reach, v);
    }
    if c.sparse {
      v := if v < 0 then -1 else c.sortedValues[v];
    }
  }

  /** From words to bits: which symbol was decoded in terms of the packet's bits. */
  lemma SymbolDecoded(f: Vorb, c: Codebook, code: Code, bits: seq<bool>, reach: nat, x: int)
    requires Tidy(f) && ValidCode(code) && reach <= |bits| && (x == -1 || IsEntry(c, code, x))
    requires Decoded(c, code, bits, reach, x, f)
    ensures forall s {:trigger Next(code, s, bits, reach)} :: Next(code, s, bits, reach) ==>
      IsEntry(c, code, x) && SymbolAt(c, x) == s && BitsLeft(f) == bits[code[s].len..]
    ensures CompleteCode(code) ==> if x == -1 then f.validBits == 0 else Next(code, SymbolAt(c, x), bits, reach)
  {
    hide Vorb.PacketRest, Unread, BitsLeft;
    forall s {:trigger Next(code, s, bits, reach)} | Next(code, s, bits, reach)
      ensures Hit(code, s, Ahead32(bits))
    {
      assert NodeOf(code, s);
      AheadIsPrefix(code[s], bits);
    }
    if CompleteCode(code) {
      Ahead32Bits(bits);
      assert HitsSome(code, Ahead32(bits));
      var t :| Hit(code, t, Ahead32(bits));
      assert NodeOf(code, t);
      if code[t].len <= |bits| {
        AheadIsPrefix(code[t], bits);
      }
    }
  }

  // ----- whole packets -----

  /** A field of a packet: a coded symbol, or a number of `n` bits. */
  datatype Field = Symbol(s: nat) | Number(value: nat, n: nat)

  datatype Request = DecodeOne | ReadBits(n: nat)

  ghost predicate CanCode(code: Code, field: Field)
  {
    match field
    case Symbol(s) => s in code && code[s].len <= 25
    case Number(value, n) => n <= 24 && value < Pow2(n)
  }

  ghost predicate CanCodeAll(code: Code, fields: seq<Field>)
  {
    forall i {:trigger CanCode(code, fields[i])} :: 0 <= i < |fields| ==> CanCode(code, fields[i])
  }

  ghost function FieldBits(code: Code, field: Field): seq<bool>
    requires CanCode(code, field)
  {
    match field
    case Symbol(s) => CodeBits(code[s])
    case Number(value, n) => BitsOf(value, n)
  }

  ghost function EncodeBits(code: Code, fields: seq<Field>): seq<bool>
    requires CanCodeAll(code, fields)
  {
    if fields == [] then []
    else
      assert CanCode(code, fields[0]);
      assert forall i {:trigger fields[1..][i]} :: 0 <= i < |fields[1..]| ==> CanCode(code, fields[i + 1]);
      FieldBits(code, fields[0]) + EncodeBits(code, fields[1..])
  }

  function RequestFor(field: Field): Request
  {
    match field
    case Symbol(_) => DecodeOne
    case Number(_, n) => ReadBits(n)
  }

  function RequestsFor(fields: seq<Field>): (r: seq<Request>)
    ensures |r| == |fields|
  {
    seq(|fields|, i requires 0 <= i < |fields| => RequestFor(fields[i]))
  }

  lemma SymbolInReach(code: Code, s: nat, bits: seq<bool>, v: nat)
    requires CanCode(code, Symbol(s)) && CodeBits(code[s]) <= bits
    ensures Next(code, s, bits, Reach(v, |bits|))
  {}

  /** Reads one field. */
  method ReadField(f: Vorb, c: Codebook, request: Request, ghost code: Code, ghost field: Field, ghost tail: seq<bool>)
    returns (got: Field)
    requires Tidy(f) && Ready(c, code) && FastListsShort(c, code) && Separate(f, c)
    requires CanCode(code, field) && request == RequestFor(field)
    requires Sound(f) && BitsLeft(f) == FieldBits(code, field) + tail
    modifies f`acc, f`validBits, f`pos, f`eof, f`error, f`pageFlag, f`segmentCount, f`nextSeg, f`lastSeg, f`bytesInSeg, f.segments
    ensures Tidy(f) && Sound(f) && got == field && BitsLeft(f) == tail && f.eof == old(f.eof)
  {
    hide Vorb.PacketRest, Unread, FastTable, SortedTables, DenseTables, FastListsShort, BitsLeft;
    ghost var bits := BitsLeft(f);
    match request
    case DecodeOne =>
      SymbolInReach(code, field.s, bits, f.validBits);
      CanDecodeUsed(c, code);
      var v := Decode(f, c, code);
      got := Symbol(v);
    case ReadBits(n) =>
      ValueOfBits(field.value, n);
      var z := GetBits(f, n);
      got := Number(z, n);
  }

  /**
   Reading back a packet: whatever symbols and numbers its bits were made of are returned in order,
   and what follows them is left unread.
   */
  method ReadFields(f: Vorb, c: Codebook, requests: seq<Request>, ghost code: Code, ghost fields: seq<Field>, ghost tail: seq<bool>)
    returns (got: seq<Field>)
    requires Tidy(f) && Ready(c, code) && FastListsShort(c, code) && Separate(f, c)
    requires CanCodeAll(code, fields) && requests == RequestsFor(fields)
    requires Sound(f) && BitsLeft(f) == EncodeBits(code, fields) + tail
    modifies f`acc, f`validBits, f`pos, f`eof, f`error, f`pageFlag, f`segmentCount, f`nextSeg, f`lastSeg, f`bytesInSeg, f.segments
    ensures Tidy(f) && got == fields && Sound(f) && BitsLeft(f) == tail && f.eof == old(f.eof)
  {
    hide Vorb.PacketRest, Unread, FastTable, SortedTables, DenseTables, FastListsShort, BitsLeft, FieldBits;
    got := [];
    for i := 0 to |requests|
      invariant Tidy(f) && Sound(f) && got == fields[..i] && f.eof == old(f.eof)
      invariant CanCodeAll(code, fields[i..]) && BitsLeft(f) == EncodeBits(code, fields[i..]) + tail
    {
      EncodeNext(code, fields, i, tail);
      var one := ReadField(f, c, requests[i], code, fields[i], EncodeBits(code, fields[i + 1..]) + tail);
      got := got + [one];
    }
  }

  lemma EncodeNext(code: Code, fields: seq<Field>, i: nat, tail: seq<bool>)
    requires i < |fields| && CanCodeAll(code, fields)
    ensures CanCode(code, fields[i]) && CanCodeAll(code, fields[i..]) && CanCodeAll(code, fields[i + 1..])
    ensures EncodeBits(code, fields[i..]) + tail == FieldBits(code, fields[i]) + (EncodeBits(code, fields[i + 1..]) + tail)
  {
    forall k, j | 0 <= j < |fields| - k && 0 <= k
      ensures CanCode(code, fields[k..][j])
    {
      assert CanCode(code, fields[k + j]);
    }
    assert fields[i..][1..] == fields[i + 1..];
  }

  /** At the start of a packet whose bytes were packed from fields, those fields are what is left to read. */
  lemma PackedPacket(f: Vorb, code: Code, fields: seq<Field>)
    requires Tidy(f) && f.validBits == 0 && CanCodeAll(code, fields)
    requires Sound(f) && f.PacketRest().payload == Pack(EncodeBits(code, fields))
    ensures exists pad: seq<bool> :: |pad| < 8 && BitsLeft(f) == EncodeBits(code, fields) + pad
  {
    var bits := EncodeBits(code, fields);
    PackRoundTrip(bits);
    var pad := Zeros(8 * |Pack(bits)| - |bits|);
    assert BitsLeft(f) == bits + pad;
  }
}
