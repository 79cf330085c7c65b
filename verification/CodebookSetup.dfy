/** Setting up a codebook once its lengths have been read: codewords, sorted table, fast table. */
module CodebookSetup {
  import opened Bits
  import opened CodeTree
  import opened CodeMap
  import opened Codebooks
  import opened CodebookTables
  import opened SortedTable
  import opened FastTables

  /** How many entries have a codeword. */
  method CountCoded(lens: seq<nat>) returns (total: nat)
    ensures total == |CodedLengths(lens)|
  {
    total := 0;
    for i := 0 to |lens|
      invariant total == Rank(lens, i)
    {
      RankNext(lens, i);
      if lens[i] != NO_CODE {
        total := total + 1;
      }
    }
    assert lens[..|lens|] == lens;
  }

  /** How many codewords are too long for the fast table. */
  method CountLong(lens: seq<nat>) returns (count: nat)
    ensures count == |LongSymbols(lens)|
  {
    count := 0;
    for i := 0 to |lens|
      invariant count == |LongSymbols(lens[..i])|
    {
      LongSymbolsNext(lens, i);
      if lens[i] > FAST_LEN && lens[i] != NO_CODE {
        count := count + 1;
      }
    }
    assert lens[..|lens|] == lens;
  }

  // ----- from assigned codewords to the sort -----

  lemma DenseReady(c: Codebook, lens: seq<nat>, values: array<nat>, ns: seq<Node>)
    requires ValidLens(lens) && Assignment(CodedLengths(lens), ns) && c.StoredBelow(lens, |lens|, ns, values)
    requires !c.sparse && c.entries == |lens| && lens == c.codewordLengths[..]
    requires c.codewords != null && c.codewords.Length == |lens| && c.sortedEntries == |LongSymbols(lens)|
    ensures ReadyToSort(c, CodeOf(lens, ns), lens, values)
  {
    var code := CodeOf(lens, ns);
    CodeOfValid(lens, ns);
    forall s {:trigger Listed(c, code, s)} | 0 <= s < c.entries
      ensures Listed(c, code, s)
    {
      assert lens[s] == c.codewordLengths[s];
      assert lens[s] != NO_CODE ==> c.Stored(lens, s, ns, values);
    }
    LongSymbolsFacts(lens);
  }

  lemma SparseSlot(c: Codebook, lens: seq<nat>, values: array<nat>, ns: seq<Node>, s: nat)
    requires ValidLens(lens) && Assignment(CodedLengths(lens), ns) && c.StoredBelow(lens, |lens|, ns, values)
    requires c.sparse && s < |lens| && lens[s] != NO_CODE
    requires forall s :: s in CodeOf(lens, ns) ==> CodeOf(lens, ns)[s].len == lens[s]
    ensures SparseAt(c, CodeOf(lens, ns), lens, values, Rank(lens, s)) && values[Rank(lens, s)] == s
  {
    assert c.Stored(lens, s, ns, values);
  }

  lemma SparseReady(c: Codebook, lens: seq<nat>, values: array<nat>, ns: seq<Node>)
    requires ValidLens(lens) && Assignment(CodedLengths(lens), ns) && c.StoredBelow(lens, |lens|, ns, values)
    requires c.sparse && c.sortedEntries == |CodedLengths(lens)| == values.Length == c.codewordLengths.Length
    ensures ReadyToSort(c, CodeOf(lens, ns), lens, values)
  {
    var code := CodeOf(lens, ns);
    CodeOfValid(lens, ns);
    assert lens[..|lens|] == lens;
    forall j {:trigger SparseAt(c, code, lens, values, j)} | 0 <= j < c.sortedEntries
      ensures SparseAt(c, code, lens, values, j) && Rank(lens, values[j]) == j
    {
      var s := SymbolOfRank(lens, |lens|, j);
      SparseSlot(c, lens, values, ns, s);
    }
    forall i, j | 0 <= i < j < |values[..]|
      ensures values[..][i] != values[..][j]
    {
      assert SparseAt(c, code, lens, values, i) && SparseAt(c, code, lens, values, j);
    }
    forall s: nat
      ensures s in values[..] <==> InSort(c, code, s)
    {
      if s in values[..] {
        var j :| 0 <= j < values.Length && values[j] == s;
        assert SparseAt(c, code, lens, values, j);
      }
      if s in code {
        SparseSlot(c, lens, values, ns, s);
        assert values[..][Rank(lens, s)] == s;
      }
    }
  }

  lemma NothingToSort(c: Codebook, code: Code, lens: seq<nat>, values: array<nat>)
    requires ReadyToSort(c, code, lens, values) && c.sortedEntries == 0 && c.sortedCodewords == null
    ensures SortedTables(c, code)
  {
    var items := SortItems(c, lens, values);
    forall s {:trigger InSort(c, code, s)}
      ensures !InSort(c, code, s)
    {
      assert s in items <==> InSort(c, code, s);
    }
  }

  method SortEntries(c: Codebook, ghost code: Code, lens: seq<nat>, values: array<nat>)
    requires ReadyToSort(c, code, lens, values) && c.codewords != null && c.sortedCodewords == null
    requires c.sortedValues.Length == c.sortedEntries
    requires values != c.codewordLengths && c.codewords != c.codewordLengths
    modifies c`sortedCodewords, c.sortedValues, c.codewordLengths
    ensures DenseTables(c, code) && SortedTables(c, code)
    ensures c.sortedCodewords == null || fresh(c.sortedCodewords)
  {
    if c.sortedEntries > 0 {
      // one extra slot for the sentinel
      c.sortedCodewords := new nat[c.sortedEntries + 1];
      ComputeSortedHuffman(c, code, lens, values);
    } else {
      NothingToSort(c, code, lens, values);
    }
  }

  /** Finishes the tables; a sparse book's codewords are dropped after sorting. */
  method FinishTables(c: Codebook, ghost code: Code, lens: seq<nat>, values: array<nat>)
    requires ReadyToSort(c, code, lens, values) && c.codewords != null && c.sortedCodewords == null
    requires c.sortedValues.Length == c.sortedEntries && c.fastHuffman.Length == FAST_SIZE
    requires c.fastHuffman !in Tables(c) && values != c.codewordLengths && c.codewords != c.codewordLengths
    modifies c`sortedCodewords, c`codewords, c.sortedValues, c.codewordLengths, c.fastHuffman
    ensures Ready(c, code)
  {
    SortEntries(c, code, lens, values);
    if c.sparse {
      c.codewords := null;
    }
    ComputeAcceleratedHuffman(c, code);
  }

  method CopyLengths(table: array<nat>, lengths: seq<nat>)
    requires table.Length == |lengths|
    modifies table
    ensures table[..] == lengths
  {
    for i := 0 to |lengths|
      invariant table[..i] == lengths[..i]
    {
      table[i] := lengths[i];
    }
  }

  /** Allocates the tables and assigns codewords: the part of the setup that can fail. */
  method AssignCodewords(lengths: seq<nat>, sparse: bool) returns (ok: bool, c: Codebook, values: array<nat>, ghost ns: seq<Node>)
    requires ValidLens(lengths)
    ensures ok <==> Kraft(CodedLengths(lengths)) <= WORD
    ensures fresh(c) && fresh(c.codewordLengths) && fresh(c.sortedValues) && fresh(c.fastHuffman)
    ensures c.sparse == sparse && c.entries == |lengths|
    ensures ok ==> Assignment(CodedLengths(lengths), ns)
    ensures ok ==> ReadyToSort(c, CodeOf(lengths, ns), lengths, values) && c.codewords != null && c.sortedCodewords == null
    ensures c.sortedValues.Length == c.sortedEntries && c.fastHuffman.Length == FAST_SIZE
    ensures c.fastHuffman !in Tables(c) && values != c.codewordLengths && c.codewords != c.codewordLengths
  {
    var sortedCount;
    if sparse {
      sortedCount := CountCoded(lengths);
    } else {
      sortedCount := CountLong(lengths);
    }
    c := new Codebook(|lengths|, sortedCount, sparse);
    values := new nat[if sparse then sortedCount else 0];
    if !sparse {
      CopyLengths(c.codewordLengths, lengths);
    }
    assert lengths[..|lengths|] == lengths;
    ok, ns := c.ComputeCodewords(lengths, values);
    if ok {
      if sparse {
        SparseReady(c, lengths, values, ns);
      } else {
        DenseReady(c, lengths, values, ns);
      }
    }
  }

  /**
   Builds a codebook from the lengths in the header. A book marked sparse in which at least a quarter
   of the entries is used is built dense.
   */
  method Build(lengths: seq<nat>, markedSparse: bool) returns (ok: bool, c: Codebook, ghost code: Code)
    requires ValidLens(lengths)
    ensures ok <==> Kraft(CodedLengths(lengths)) <= WORD
    ensures c.sparse <==> markedSparse && |CodedLengths(lengths)| < |lengths| / 4
    ensures ok ==> Ready(c, code) && c.entries == |lengths|
    ensures ok ==> forall s :: s in code <==> 0 <= s < |lengths| && lengths[s] != 255
    ensures ok ==> forall s :: s in code ==> code[s].len == lengths[s]
    ensures ok && Kraft(CodedLengths(lengths)) == WORD ==> CompleteCode(code)
  {
    var total := CountCoded(lengths);
    var sparse := markedSparse && !(total >= |lengths| / 4);
    var values;
    ghost var ns;
    ok, c, values, ns := AssignCodewords(lengths, sparse);
    code := map[];
    if ok {
      code := CodeOf(lengths, ns);
      CodeOfValid(lengths, ns);
      if Kraft(CodedLengths(lengths)) == WORD {
        CodeOfComplete(lengths, ns);
      }
      FinishTables(c, code, lengths, values);
    }
  }
}
