/** The three ways to find the entry whose codeword the accumulator starts with: fast table, binary search, linear scan. */
module HuffmanLookup {
  import opened Bits
  import opened CodeTree
  import opened CodeMap
  import opened Codebooks
  import opened CodebookTables
  import opened DistinctSort
  import opened SortedTable
  import opened BitString

  /** Entry `i` of the tables stands for a symbol of the code. */
  ghost predicate IsEntry(c: Codebook, code: Code, i: int)
    reads c`sparse, c`entries, c`sortedEntries, c`sortedValues, c.sortedValues
  {
    0 <= i < TableSize(c) && SymbolAt(c, i) in code
  }

  /** `i` is the entry of the symbol whose codeword `acc` starts with, if there is one. */
  ghost predicate Finds(c: Codebook, code: Code, acc: nat, i: int)
    reads c`sparse, c`entries, c`sortedEntries, c`sortedValues, c.sortedValues
  {
    forall s {:trigger Hit(code, s, acc)} :: Hit(code, s, acc) ==> IsEntry(c, code, i) && SymbolAt(c, i) == s
  }

  ghost predicate NoShortHit(c: Codebook, code: Code, acc: nat)
    reads c`sparse
  {
    forall s {:trigger Hit(code, s, acc)} :: Hit(code, s, acc) ==> InSort(c, code, s)
  }

  // ----- fast table -----

  lemma LowTenBits(n: Node, acc: nat)
    requires IsNode(n) && n.len <= FAST_LEN
    ensures Matches(n, LowBits(acc, FAST_LEN)) <==> Matches(n, acc)
  {
    MatchIsPrefix(n, acc, FAST_LEN);
    MatchIsPrefix(n, LowBits(acc, FAST_LEN), FAST_LEN);
    ShiftAndMask(acc, FAST_LEN);
    SplitAt(acc, ShiftRight(acc, FAST_LEN), LowBits(acc, FAST_LEN), FAST_LEN, FAST_LEN);
  }

  /** The fast table finds short codewords, and its answers are never wrong. */
  method LookupFast(c: Codebook, ghost code: Code, acc: nat) returns (i: int)
    requires Ready(c, code) && acc < WORD
    ensures i == -1 || IsEntry(c, code, i)
    ensures i >= 0 ==> Finds(c, code, acc, i) && Hit(code, SymbolAt(c, i), acc) && code[SymbolAt(c, i)].len <= FAST_LEN
    ensures i == -1 && FastListsShort(c, code) ==> NoShortHit(c, code, acc)
  {
    var z := LowBits(acc, FAST_LEN);
    ShiftAndMask(acc, FAST_LEN);
    Pow2Values();
    assert FastAt(c, code, FastCount(c), z);
    i := c.fastHuffman[z];
    if i >= 0 {
      FastHit(c, code, acc, i);
    } else if FastListsShort(c, code) {
      FastMiss(c, code, acc);
    }
  }

  lemma FastHit(c: Codebook, code: Code, acc: nat, i: nat)
    requires ValidCode(code) && acc < WORD && i < TableSize(c) && ShortMatch(c, code, i, LowBits(acc, FAST_LEN))
    ensures Hit(code, SymbolAt(c, i), acc) && Finds(c, code, acc, i)
  {
    var t := SymbolAt(c, i);
    assert NodeOf(code, t);
    LowTenBits(code[t], acc);
    forall s {:trigger Hit(code, s, acc)} | Hit(code, s, acc)
      ensures s == t
    {
      HitUnique(code, s, t, acc);
    }
  }

  lemma FastMiss(c: Codebook, code: Code, acc: nat)
    requires Ready(c, code) && FastListsShort(c, code)
    requires forall i: nat {:trigger ShortMatch(c, code, i, LowBits(acc, FAST_LEN))} :: i < FastCount(c) ==>
      !ShortMatch(c, code, i, LowBits(acc, FAST_LEN))
    ensures NoShortHit(c, code, acc)
  {
    forall s {:trigger Hit(code, s, acc)} | Hit(code, s, acc)
      ensures InSort(c, code, s)
    {
      assert NodeOf(code, s);
      if !c.sparse && code[s].len <= FAST_LEN {
        LowTenBits(code[s], acc);
        assert SymbolAt(c, s) == s && ShortMatch(c, code, s, LowBits(acc, FAST_LEN));
      }
    }
  }

  // ----- binary search -----

  lemma SortedSearchFinds(c: Codebook, code: Code, acc: nat, x: nat, s: nat)
    requires ValidCode(code) && SortedTables(c, code) && acc < WORD && x < c.sortedEntries && c.sortedCodewords != null
    requires c.sortedEntries <= c.sortedCodewords.Length && c.sortedEntries <= c.sortedValues.Length
    requires x > 0 ==> c.sortedCodewords[x] <= Reverse(acc, 32)
    requires forall y :: x < y < c.sortedEntries ==> Reverse(acc, 32) < c.sortedCodewords[y]
    requires Hit(code, s, acc) && InSort(c, code, s)
    ensures c.sortedValues[x] == s
  {
    assert Placed(c, s);
    var x0: nat :| x0 < c.sortedEntries && c.sortedValues[x0] == s;
    assert x0 < x ==> Ascending(c, x0, x);
    assert SortedAt(c, code, x0) && SortedAt(c, code, x);
    var t: nat := c.sortedValues[x];
    assert NodeOf(code, s) && NodeOf(code, t);
    MatchIsContainment(code[s], acc);
    assert s != t ==> Apart(code, s, t);
  }

  method SearchBook(c: Codebook, ghost code: Code, acc: nat) returns (i: int)
    requires Ready(c, code) && acc < WORD && c.sortedCodewords != null
    ensures IsEntry(c, code, i)
    ensures NoShortHit(c, code, acc) ==> Finds(c, code, acc, i)
  {
    SortedShape(c, code);
    var word := Reverse(acc, 32);
    var x := SearchSorted(c.sortedCodewords, c.sortedEntries, word);
    assert SortedAt(c, code, x);
    i := if c.sparse then x else c.sortedValues[x];
    forall s {:trigger Hit(code, s, acc)} | Hit(code, s, acc) && InSort(c, code, s)
      ensures c.sortedValues[x] == s
    {
      SortedSearchFinds(c, code, acc, x, s);
    }
  }

  lemma SortedShape(c: Codebook, code: Code)
    requires SortedTables(c, code) && c.sortedCodewords != null
    ensures 0 < c.sortedEntries <= c.sortedCodewords.Length && c.sortedEntries <= c.sortedValues.Length
    ensures StrictlyAscending(c.sortedCodewords[..c.sortedEntries])
  {
    assert SortedAt(c, code, c.sortedEntries - 1);
    forall x, y | 0 <= x < y < c.sortedEntries
      ensures c.sortedCodewords[x] < c.sortedCodewords[y]
    {
      assert Ascending(c, x, y);
    }
  }

  // ----- linear scan -----

  lemma ScanTest(c: Codebook, code: Code, acc: nat, k: nat)
    requires ValidCode(code) && DenseTables(c, code) && !c.sparse && k < c.entries
    ensures c.codewords != null && k < c.codewords.Length && k < c.codewordLengths.Length
    ensures Hit(code, k, acc) <==>
      c.codewordLengths[k] != NO_CODE && c.codewords[k] == LowBits(acc, c.codewordLengths[k])
  {
    assert Listed(c, code, k);
    assert k in code ==> NodeOf(code, k);
    LowBitsIsMod(acc, c.codewordLengths[k]);
  }

  lemma OnlyHit(c: Codebook, code: Code, acc: nat, k: nat)
    requires ValidCode(code) && acc < WORD && !c.sparse && k < c.entries && Hit(code, k, acc)
    ensures IsEntry(c, code, k) && Finds(c, code, acc, k)
  {
    forall s {:trigger Hit(code, s, acc)} | Hit(code, s, acc)
      ensures s == k
    {
      HitUnique(code, s, k, acc);
    }
  }

  /** The scan of a small dense book, from the first entry on. */
  method ScanBook(c: Codebook, ghost code: Code, acc: nat) returns (i: int)
    requires Ready(c, code) && acc < WORD && !c.sparse
    ensures i == -1 || (IsEntry(c, code, i) && Hit(code, i, acc))
    ensures Finds(c, code, acc, i)
  {
    hide Hit, FastTable, SortedTables;
    for k := 0 to c.entries
      invariant forall s: nat {:trigger Hit(code, s, acc)} :: s < k ==> !Hit(code, s, acc)
    {
      ScanTest(c, code, acc, k);
      if c.codewordLengths[k] != NO_CODE {
        if c.codewords[k] == LowBits(acc, c.codewordLengths[k]) {
          OnlyHit(c, code, acc, k);
          return k;
        }
      }
    }
    NoHit(c, code, acc);
    return -1;
  }

  lemma NoHit(c: Codebook, code: Code, acc: nat)
    requires DenseTables(c, code) && !c.sparse
    requires forall s: nat {:trigger Hit(code, s, acc)} :: s < c.entries ==> !Hit(code, s, acc)
    ensures Finds(c, code, acc, -1)
  {}

  lemma NothingStored(c: Codebook, code: Code)
    requires Ready(c, code) && c.codewords == null && c.sortedCodewords == null
    ensures forall s :: s !in code
  {
    forall s | s in code
      ensures Placed(c, s) && InSort(c, code, s)
    {
      assert InSort(c, code, s);
    }
  }

  /** Where an entry keeps its length. */
  lemma EntryLength(c: Codebook, code: Code, i: nat)
    requires Ready(c, code) && IsEntry(c, code, i)
    ensures i < c.codewordLengths.Length && c.codewordLengths[i] == code[SymbolAt(c, i)].len
  {
    if c.sparse {
      assert SortedAt(c, code, i);
    } else {
      assert Listed(c, code, i);
    }
  }
}
