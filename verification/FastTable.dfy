/** The 1024-entry table that decodes codewords of up to ten bits in one step. */
module FastTables {
  import opened Bits
  import opened CodeMap
  import opened Codebooks
  import opened CodebookTables

  ghost function Tables(c: Codebook): set<object?>
    reads c
  {
    {c, c.codewords, c.codewordLengths, c.sortedCodewords, c.sortedValues}
  }

  /** Fills the fast table: a slot names the entry whose short codeword its low bits start with, or -1. */
  method ComputeAcceleratedHuffman(c: Codebook, ghost code: Code)
    requires ValidCode(code) && DenseTables(c, code) && SortedTables(c, code)
    requires c.fastHuffman.Length == FAST_SIZE && c.fastHuffman !in Tables(c)
    modifies c.fastHuffman
    ensures FastTable(c, code, FastCount(c))
  {
    for i := 0 to FAST_SIZE
      invariant forall z :: 0 <= z < i ==> c.fastHuffman[z] == -1
    {
      c.fastHuffman[i] := -1;
    }
    var len := if c.sparse then c.sortedEntries else c.entries;
    if len > FAST_MAX {
      len := FAST_MAX;
    }
    for i := 0 to len
      invariant FastTable(c, code, i)
    {
      AccelerateEntry(c, code, i);
    }
  }

  method AccelerateEntry(c: Codebook, ghost code: Code, i: nat)
    requires ValidCode(code) && DenseTables(c, code) && SortedTables(c, code) && i < TableSize(c)
    requires c.fastHuffman.Length == FAST_SIZE && c.fastHuffman !in Tables(c)
    requires FastTable(c, code, i)
    modifies c.fastHuffman
    ensures FastTable(c, code, i + 1)
  {
    EntryFacts(c, code, i);
    if c.codewordLengths[i] <= FAST_LEN {
      var z := if c.sparse then Reverse(c.sortedCodewords[i], 32) else c.codewords[i];
      CodewordBound(code[SymbolAt(c, i)]);
      FillStride(c.fastHuffman, z, c.codewordLengths[i], i);
    }
    forall z {:trigger FastAt(c, code, i + 1, z)} | 0 <= z < FAST_SIZE
      ensures FastAt(c, code, i + 1, z)
    {
      assert old(FastAt(c, code, i, z));
      assert ShortMatch(c, code, i, z) <==>
        c.codewordLengths[i] <= FAST_LEN && OnStride(z, Codeword(code[SymbolAt(c, i)]), Pow2(c.codewordLengths[i]));
    }
  }

  /** Stores `i` in every slot whose low `len` bits are `first`. */
  method FillStride(fast: array<int>, first: nat, len: nat, i: int)
    requires fast.Length == FAST_SIZE && first < Pow2(len)
    modifies fast
    ensures forall p {:trigger fast[p]} :: 0 <= p < FAST_SIZE ==> fast[p] == if OnStride(p, first, Pow2(len)) then i else old(fast[p])
  {
    var z := first;
    var step := Pow2(len);
    FirstOnStride(first, step);
    while z < FAST_SIZE
      invariant z >= first && OnStride(z, first, step)
      invariant forall p {:trigger fast[p]} :: 0 <= p < FAST_SIZE ==>
        fast[p] == if OnStride(p, first, step) && p < z then i else old(fast[p])
      decreases FAST_SIZE - z
    {
      fast[z] := i;
      NextOnStride(z, first, step);
      z := z + step;
    }
  }

  ghost predicate OnStride(p: nat, first: nat, step: nat)
    requires step > 0
  {
    p % step == first
  }

  lemma FirstOnStride(first: nat, step: nat)
    requires first < step
    ensures OnStride(first, first, step)
    ensures forall p: nat {:trigger OnStride(p, first, step)} :: p < first ==> !OnStride(p, first, step)
  {
    forall p: nat | p <= first
      ensures p % step == p
    {
      DivUnique(p, step, 0, p);
    }
  }

  /** The next number with the same remainder is one step away. */
  lemma NextOnStride(z: nat, first: nat, step: nat)
    requires first < step && OnStride(z, first, step)
    ensures OnStride(z + step, first, step)
    ensures forall p: nat {:trigger OnStride(p, first, step)} :: z < p < z + step ==> !OnStride(p, first, step)
  {
    var t, r := QuotRem(z, step);
    Distribute(t, 1, step);
    DivUnique(z + step, step, t + 1, first);
    forall p: nat | z < p < z + step
      ensures !OnStride(p, first, step)
    {
      var d := p - z;
      if first + d < step {
        DivUnique(p, step, t, first + d);
      } else {
        DivUnique(p, step, t + 1, first + d - step);
      }
    }
  }
}
