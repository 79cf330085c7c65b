/** What the tables of a finished codebook say about its code. */
module CodebookTables {
  import opened Bits
  import opened CodeTree
  import opened CodeMap
  import opened Codebooks

  const FAST_LEN: nat := 10
  const FAST_SIZE: nat := 1024
  const FAST_MAX: nat := 32767

  /** A dense book lists every symbol's length and codeword. */
  ghost predicate Listed(c: Codebook, code: Code, s: nat)
    reads c`codewords, c`codewordLengths, c.codewords, c.codewordLengths
  {
    c.codewords != null && s < c.codewords.Length && s < c.codewordLengths.Length &&
    if s in code then c.codewordLengths[s] == code[s].len && c.codewords[s] == Codeword(code[s])
    else c.codewordLengths[s] == NO_CODE
  }

  ghost predicate DenseTables(c: Codebook, code: Code)
    reads c`sparse, c`entries, c`codewords, c`codewordLengths, c.codewords, c.codewordLengths
  {
    !c.sparse ==>
      (forall s :: s in code ==> s < c.entries) &&
      forall s {:trigger Listed(c, code, s)} :: 0 <= s < c.entries ==> Listed(c, code, s)
  }

  /** Only codewords too long for the fast table are sorted, unless the book is sparse. */
  ghost predicate InSort(c: Codebook, code: Code, s: nat)
    reads c`sparse
  {
    s in code && (c.sparse || code[s].len > 10)
  }

  ghost predicate SortedAt(c: Codebook, code: Code, x: nat)
    reads c`sparse, c`codewordLengths, c`sortedCodewords, c`sortedValues, c.codewordLengths, c.sortedCodewords, c.sortedValues
  {
    c.sortedCodewords != null && x < c.sortedCodewords.Length && x < c.sortedValues.Length &&
    c.sortedValues[x] >= 0 &&
    var s: nat := c.sortedValues[x];
    InSort(c, code, s) && c.sortedCodewords[x] == code[s].start &&
    (c.sparse ==> x < c.codewordLengths.Length && c.codewordLengths[x] == code[s].len)
  }

  ghost predicate Ascending(c: Codebook, x: nat, y: nat)
    reads c`sortedCodewords, c.sortedCodewords
  {
    c.sortedCodewords != null && x < c.sortedCodewords.Length && y < c.sortedCodewords.Length &&
    c.sortedCodewords[x] < c.sortedCodewords[y]
  }

  ghost predicate Placed(c: Codebook, s: nat)
    reads c`sortedEntries, c`sortedValues, c.sortedValues
  {
    exists x :: 0 <= x < c.sortedEntries && x < c.sortedValues.Length && c.sortedValues[x] == s
  }

  ghost predicate SortedTables(c: Codebook, code: Code)
    reads c`sparse, c`sortedEntries, c`codewordLengths, c`sortedCodewords, c`sortedValues,
      c.codewordLengths, c.sortedCodewords, c.sortedValues
  {
    (c.sortedCodewords == null <==> c.sortedEntries == 0) &&
    (forall x {:trigger SortedAt(c, code, x)} :: 0 <= x < c.sortedEntries ==> SortedAt(c, code, x)) &&
    (forall x, y {:trigger Ascending(c, x, y)} :: 0 <= x < y < c.sortedEntries ==> Ascending(c, x, y)) &&
    forall s {:trigger Placed(c, s)} :: InSort(c, code, s) ==> Placed(c, s)
  }

  /** The number of entries the fast table is built from, and the symbol of each. */
  ghost function TableSize(c: Codebook): nat
    reads c`sparse, c`sortedEntries, c`entries
  {
    if c.sparse then c.sortedEntries else c.entries
  }

  ghost function SymbolAt(c: Codebook, i: nat): int
    reads c`sparse, c`sortedValues, c.sortedValues
  {
    if c.sparse then (if i < c.sortedValues.Length then c.sortedValues[i] else -1) else i
  }

  ghost predicate ShortMatch(c: Codebook, code: Code, i: nat, z: nat)
    reads c`sparse, c`sortedValues, c.sortedValues
  {
    SymbolAt(c, i) in code && code[SymbolAt(c, i)].len <= 10 && Matches(code[SymbolAt(c, i)], z)
  }

  /** Slot `z` of the fast table names the one entry below `n` whose short codeword `z` starts with. */
  ghost predicate FastAt(c: Codebook, code: Code, n: nat, z: nat)
    reads c`sparse, c`sortedValues, c`fastHuffman, c.sortedValues, c.fastHuffman
  {
    z < c.fastHuffman.Length &&
    var f := c.fastHuffman[z];
    if f >= 0 then f < n && ShortMatch(c, code, f, z)
    else f == -1 && forall i: nat {:trigger ShortMatch(c, code, i, z)} :: i < n ==> !ShortMatch(c, code, i, z)
  }

  ghost predicate FastTable(c: Codebook, code: Code, n: nat)
    reads c`sparse, c`sortedValues, c`fastHuffman, c.sortedValues, c.fastHuffman
  {
    forall z {:trigger FastAt(c, code, n, z)} :: 0 <= z < FAST_SIZE ==> FastAt(c, code, n, z)
  }

  /** Only that many entries fit the 16-bit slots of the fast table. */
  ghost function FastCount(c: Codebook): nat
    reads c`sparse, c`sortedEntries, c`entries
  {
    if TableSize(c) > 32767 then 32767 else TableSize(c)
  }

  lemma EntryFacts(c: Codebook, code: Code, i: nat)
    requires ValidCode(code) && DenseTables(c, code) && SortedTables(c, code) && i < TableSize(c)
    ensures i < c.codewordLengths.Length && (c.codewordLengths[i] <= MAX_LEN <==> SymbolAt(c, i) in code)
    ensures c.sparse ==> c.sortedCodewords != null && i < c.sortedCodewords.Length
    ensures !c.sparse ==> c.codewords != null && i < c.codewords.Length
    ensures SymbolAt(c, i) in code ==>
      var n := code[SymbolAt(c, i)];
      IsNode(n) && c.codewordLengths[i] == n.len &&
      (if c.sparse then Reverse(c.sortedCodewords[i], 32) else c.codewords[i]) == Codeword(n)
  {
    if c.sparse {
      assert SortedAt(c, code, i);
      assert NodeOf(code, SymbolAt(c, i));
    } else {
      assert Listed(c, code, i);
      assert i in code ==> NodeOf(code, i);
    }
  }

  /** A codebook ready for decoding. */
  ghost predicate Ready(c: Codebook, code: Code)
    reads c, c.codewords, c.codewordLengths, c.sortedCodewords, c.sortedValues, c.fastHuffman
  {
    ValidCode(code) && DenseTables(c, code) && SortedTables(c, code) && FastTable(c, code, FastCount(c)) &&
    (c.sparse <==> c.codewords == null)
  }

  /** Codewords short enough for the fast table are among the entries it has room for. */
  ghost predicate FastListsShort(c: Codebook, code: Code)
    reads c`sparse
  {
    !c.sparse ==> forall s {:trigger NodeOf(code, s)} :: s in code && s >= 32767 ==> code[s].len > 10
  }
}
