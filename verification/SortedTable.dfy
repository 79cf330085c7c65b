/** The sorted codewords searched when the fast table has no answer. */
module SortedTable {
  import opened Bits
  import opened CodeMap
  import opened Codebooks
  import opened CodebookTables
  import opened DistinctSort

  // ----- which symbols are sorted -----

  ghost predicate Long(len: nat)
  {
    len != NO_CODE && len > FAST_LEN
  }

  /** The symbols whose codewords are too long for the fast table, in order. */
  ghost function LongSymbols(lens: seq<nat>): (r: seq<nat>)
  {
    if lens == [] then []
    else LongSymbols(lens[..|lens| - 1]) + if Long(lens[|lens| - 1]) then [|lens| - 1] else []
  }

  lemma LongSymbolsNext(lens: seq<nat>, i: nat)
    requires i < |lens|
    ensures LongSymbols(lens[..i + 1]) == LongSymbols(lens[..i]) + if Long(lens[i]) then [i] else []
  {
    assert lens[..i + 1][..i] == lens[..i];
  }

  lemma {:induction false} LongSymbolsPrefix(lens: seq<nat>, i: nat)
    requires i <= |lens|
    ensures LongSymbols(lens[..i]) <= LongSymbols(lens)
    decreases |lens| - i
  {
    if i < |lens| {
      LongSymbolsNext(lens, i);
      LongSymbolsPrefix(lens, i + 1);
    } else {
      assert lens[..i] == lens;
    }
  }

  lemma {:induction false} LongSymbolsFacts(lens: seq<nat>)
    ensures StrictlyAscending(LongSymbols(lens))
    ensures forall s: nat {:trigger s in LongSymbols(lens)} :: s in LongSymbols(lens) <==> s < |lens| && Long(lens[s])
  {
    if lens != [] {
      var k := |lens| - 1;
      LongSymbolsFacts(lens[..k]);
      assert forall s :: s in LongSymbols(lens) <==> s in LongSymbols(lens[..k]) || (s == k && Long(lens[k]));
      assert forall x :: 0 <= x < |LongSymbols(lens[..k])| ==> LongSymbols(lens[..k])[x] in LongSymbols(lens[..k]);
    }
  }

  /** The order in which entries are put into the sort: symbols with long codewords, or every stored value. */
  ghost function SortItems(c: Codebook, lengths: seq<nat>, values: array<nat>): seq<nat>
    reads c`sparse, values
  {
    if c.sparse then values[..] else LongSymbols(lengths)
  }

  /** `items` lists the symbols to be sorted, each once. */
  ghost predicate Items(c: Codebook, code: Code, items: seq<nat>)
    reads c`sparse, c`sortedEntries
  {
    |items| == c.sortedEntries && Distinct(items) &&
    forall s {:trigger s in items} :: s in items <==> InSort(c, code, s)
  }

  /** Slot `j` of the compact tables of a sparse book, before sorting. */
  ghost predicate SparseAt(c: Codebook, code: Code, lengths: seq<nat>, values: array<nat>, j: nat)
    reads c`codewords, c.codewords, values
  {
    c.codewords != null && j < c.codewords.Length && j < values.Length &&
    values[j] in code && values[j] < |lengths| &&
    lengths[values[j]] == code[values[j]].len && c.codewords[j] == Codeword(code[values[j]])
  }

  /** What the assignment of codewords leaves for the sort. */
  ghost predicate ReadyToSort(c: Codebook, code: Code, lengths: seq<nat>, values: array<nat>)
    reads c`sparse, c`entries, c`sortedEntries, c`codewords, c`codewordLengths, c.codewords, c.codewordLengths, values
  {
    ValidCode(code) && DenseTables(c, code) && Items(c, code, SortItems(c, lengths, values)) &&
    if c.sparse then
      values.Length == c.codewordLengths.Length == c.sortedEntries &&
      forall j {:trigger SparseAt(c, code, lengths, values, j)} :: 0 <= j < c.sortedEntries ==>
        SparseAt(c, code, lengths, values, j)
    else
      c.entries == |lengths| && lengths == c.codewordLengths[..]
  }

  ghost predicate SortStorage(c: Codebook, values: array<nat>)
    reads c
  {
    c.sortedCodewords != null && c.sortedCodewords.Length == c.sortedEntries + 1 &&
    c.sortedValues.Length == c.sortedEntries && values != c.sortedCodewords && values != c.codewordLengths &&
    c.sortedCodewords != c.codewords && c.sortedCodewords != c.codewordLengths && c.codewords != c.codewordLengths
  }

  // ----- collecting -----

  /** The first `k` slots hold the left-aligned codewords of the first `k` items. */
  ghost predicate Collected(c: Codebook, code: Code, items: seq<nat>, k: nat)
    reads c`sortedCodewords, c.sortedCodewords
  {
    c.sortedCodewords != null && k <= c.sortedCodewords.Length && k <= |items| &&
    forall x {:trigger items[x]} :: 0 <= x < k ==> items[x] in code && c.sortedCodewords[x] == code[items[x]].start
  }

  method CollectOne(c: Codebook, ghost code: Code, ghost items: seq<nat>, k: nat, word: nat)
    requires ValidCode(code) && Collected(c, code, items, k)
    requires k < |items| && items[k] in code && word == Codeword(code[items[k]]) && k < c.sortedCodewords.Length
    modifies c.sortedCodewords
    ensures Collected(c, code, items, k + 1)
  {
    assert NodeOf(code, items[k]);
    Pow2Values();
    ReverseInvolution(code[items[k]].start, 32);
    c.sortedCodewords[k] := Reverse(word, 32);
  }

  method CollectDense(c: Codebook, ghost code: Code, lengths: seq<nat>, values: array<nat>)
    requires ReadyToSort(c, code, lengths, values) && SortStorage(c, values) && !c.sparse
    modifies c.sortedCodewords
    ensures Collected(c, code, LongSymbols(lengths), c.sortedEntries)
  {
    var k := 0;
    for i := 0 to c.entries
      invariant k == |LongSymbols(lengths[..i])| && LongSymbols(lengths[..i]) <= LongSymbols(lengths)
      invariant Collected(c, code, LongSymbols(lengths), k)
    {
      LongSymbolsNext(lengths, i);
      LongSymbolsPrefix(lengths, i + 1);
      if lengths[i] != NO_CODE && lengths[i] > FAST_LEN {
        assert Listed(c, code, i);
        CollectOne(c, code, LongSymbols(lengths), k, c.codewords[i]);
        k := k + 1;
      }
    }
    assert lengths[..c.entries] == lengths;
    assert k == c.sortedEntries;
  }

  method CollectSparse(c: Codebook, ghost code: Code, lengths: seq<nat>, values: array<nat>)
    requires ReadyToSort(c, code, lengths, values) && SortStorage(c, values) && c.sparse
    modifies c.sortedCodewords
    ensures Collected(c, code, values[..], c.sortedEntries)
  {
    for i := 0 to c.sortedEntries
      invariant Collected(c, code, values[..], i)
    {
      assert SparseAt(c, code, lengths, values, i);
      CollectOne(c, code, values[..], i, c.codewords[i]);
    }
  }

  // ----- sorting -----

  ghost predicate IsStart(c: Codebook, code: Code, v: nat)
    reads c`sparse
  {
    exists s :: InSort(c, code, s) && code[s].start == v
  }

  /** The left-aligned codewords to be searched are in increasing order, each once. */
  ghost predicate SortedStarts(c: Codebook, code: Code)
    reads c`sparse, c`sortedEntries, c`sortedCodewords, c.sortedCodewords
  {
    c.sortedCodewords != null && c.sortedEntries <= c.sortedCodewords.Length &&
    StrictlyAscending(c.sortedCodewords[..c.sortedEntries]) &&
    forall v {:trigger IsStart(c, code, v)} :: v in c.sortedCodewords[..c.sortedEntries] <==> IsStart(c, code, v)
  }

  lemma CollectedStarts(c: Codebook, code: Code, items: seq<nat>, starts: seq<nat>)
    requires ValidCode(code) && Items(c, code, items) && |starts| == |items|
    requires forall x {:trigger items[x]} :: 0 <= x < |items| ==> items[x] in code && starts[x] == code[items[x]].start
    ensures Distinct(starts)
    ensures forall v {:trigger IsStart(c, code, v)} :: v in starts <==> IsStart(c, code, v)
  {
    forall x, y | 0 <= x < y < |starts|
      ensures starts[x] != starts[y]
    {
      assert items[x] != items[y];
      if starts[x] == starts[y] {
        StartUnique(code, items[x], items[y]);
      }
    }
    forall v
      ensures v in starts <==> IsStart(c, code, v)
    {
      if v in starts {
        var x :| 0 <= x < |starts| && starts[x] == v;
        assert items[x] in items;
      }
      if IsStart(c, code, v) {
        var s :| InSort(c, code, s) && code[s].start == v;
        assert s in items;
        var x :| 0 <= x < |items| && items[x] == s;
        assert starts[x] == v;
      }
    }
  }

  /** Sorts the collected codewords and adds the sentinel. */
  method SortCodewords(c: Codebook, ghost code: Code, ghost items: seq<nat>)
    requires ValidCode(code) && Items(c, code, items) && Collected(c, code, items, c.sortedEntries)
    requires c.sortedCodewords.Length == c.sortedEntries + 1
    modifies c.sortedCodewords
    ensures SortedStarts(c, code)
  {
    var n := c.sortedEntries;
    var starts := c.sortedCodewords[..n];
    CollectedStarts(c, code, items, starts);
    var sorted := Sort(starts);
    for i := 0 to n
      invariant forall x :: 0 <= x < i ==> c.sortedCodewords[x] == sorted[x]
    {
      c.sortedCodewords[i] := sorted[i];
    }
    c.sortedCodewords[n] := 0xffffffff;
    assert c.sortedCodewords[..n] == sorted;
  }

  // ----- searching -----

  /** Binary search: the last position whose codeword does not exceed `code`, or 0. */
  method SearchSorted(table: array<nat>, total: nat, code: nat) returns (x: nat)
    requires 0 < total <= table.Length && StrictlyAscending(table[..total])
    ensures x < total
    ensures x > 0 ==> table[x] <= code
    ensures forall y :: x < y < total ==> code < table[y]
  {
    x := 0;
    var n := total;
    while n > 1
      invariant 1 <= n && x + n <= total
      invariant x > 0 ==> table[x] <= code
      invariant forall y :: x + n <= y < total ==> code < table[y]
    {
      var m := x + n / 2;
      if table[m] <= code {
        x := m;
        n := n - n / 2;
      } else {
        assert forall y :: m < y < total ==> table[..total][m] < table[..total][y];
        n := n / 2;
      }
    }
  }

  // ----- recording which symbol each sorted codeword belongs to -----

  /** If position `x` holds the codeword of `s`, it names `s`. */
  ghost predicate Named(c: Codebook, code: Code, s: nat, x: nat)
    requires s in code
    reads c, c.codewordLengths, c.sortedCodewords, c.sortedValues
  {
    c.sortedCodewords != null && x < c.sortedCodewords.Length && x < c.sortedValues.Length &&
    (c.sortedCodewords[x] == code[s].start ==>
      c.sortedValues[x] == s && (c.sparse ==> x < c.codewordLengths.Length && c.codewordLengths[x] == code[s].len))
  }

  ghost predicate NamedEverywhere(c: Codebook, code: Code, s: nat)
    requires s in code
    reads c, c.codewordLengths, c.sortedCodewords, c.sortedValues
  {
    forall x {:trigger Named(c, code, s, x)} :: 0 <= x < c.sortedEntries ==> Named(c, code, s, x)
  }

  /** The sorted entries among the first `i` of the original order are named. */
  ghost predicate NamedBelow(c: Codebook, code: Code, values: array<nat>, i: nat)
    reads c, values, c.codewordLengths, c.sortedCodewords, c.sortedValues
  {
    forall j {:trigger Original(c, values, j)} :: 0 <= j < i ==>
      var s := Original(c, values, j);
      InSort(c, code, s) ==> NamedEverywhere(c, code, s)
  }

  function Original(c: Codebook, values: array<nat>, j: nat): nat
    reads c, values
  {
    if c.sparse then (if j < values.Length then values[j] else 0) else j
  }

  /** Only a sparse book's lengths are permuted. */
  ghost function Lengths(c: Codebook): set<array<nat>>
    reads c
  {
    if c.sparse then {c.codewordLengths} else {}
  }

  method NameEntry(c: Codebook, ghost code: Code, values: array<nat>, i: nat, s: nat, word: nat, len: nat)
    requires ValidCode(code) && SortedStarts(c, code) && SortStorage(c, values)
    requires c.sparse ==> c.codewordLengths.Length == c.sortedEntries
    requires NamedBelow(c, code, values, i) && s == Original(c, values, i) && InSort(c, code, s)
    requires word == code[s].start && len == code[s].len
    modifies c.sortedValues, Lengths(c)
    ensures NamedBelow(c, code, values, i + 1)
  {
    assert IsStart(c, code, word);
    var x := SearchSorted(c.sortedCodewords, c.sortedEntries, word);
    SearchFinds(c.sortedCodewords[..c.sortedEntries], x, word);
    assert c.sortedCodewords[x] == word;
    c.sortedValues[x] := s;
    if c.sparse {
      c.codewordLengths[x] := len;
    }
    forall j | 0 <= j < i + 1 && InSort(c, code, Original(c, values, j))
      ensures NamedEverywhere(c, code, Original(c, values, j))
    {
      var t := Original(c, values, j);
      forall y {:trigger Named(c, code, t, y)} | 0 <= y < c.sortedEntries
        ensures Named(c, code, t, y)
      {
        assert y != x ==> c.sortedCodewords[..c.sortedEntries][y] != c.sortedCodewords[..c.sortedEntries][x];
        if j < i {
          assert old(NamedEverywhere(c, code, t)) && old(Named(c, code, t, y));
          if y == x && c.sortedCodewords[x] == code[t].start {
            StartUnique(code, s, t);
          }
        }
      }
    }
  }

  lemma SearchFinds(table: seq<nat>, x: nat, word: nat)
    requires StrictlyAscending(table) && word in table && x < |table|
    requires x > 0 ==> table[x] <= word
    requires forall y :: x < y < |table| ==> word < table[y]
    ensures table[x] == word
  {
    var y :| 0 <= y < |table| && table[y] == word;
  }

  ghost predicate AllNamed(c: Codebook, code: Code)
    reads c, c.codewordLengths, c.sortedCodewords, c.sortedValues
  {
    forall s {:trigger InSort(c, code, s)} :: InSort(c, code, s) ==> NamedEverywhere(c, code, s)
  }

  /** Every symbol to be sorted occurs in the original order. */
  lemma NamedBelowAll(c: Codebook, code: Code, lengths: seq<nat>, values: array<nat>)
    requires ReadyToSort(c, code, lengths, values)
    requires NamedBelow(c, code, values, TableSize(c))
    ensures AllNamed(c, code)
  {
    forall s {:trigger InSort(c, code, s)} | InSort(c, code, s)
      ensures NamedEverywhere(c, code, s)
    {
      if c.sparse {
        assert s in values[..];
        var j :| 0 <= j < values.Length && values[j] == s;
        assert Original(c, values, j) == s;
      } else {
        assert Original(c, values, s) == s;
      }
    }
  }

  lemma NamedIsSorted(c: Codebook, code: Code)
    requires SortedStarts(c, code) && AllNamed(c, code) && c.sortedEntries > 0
    requires c.sortedValues.Length == c.sortedEntries
    ensures SortedTables(c, code)
  {
    var table := c.sortedCodewords[..c.sortedEntries];
    forall x {:trigger SortedAt(c, code, x)} | 0 <= x < c.sortedEntries
      ensures SortedAt(c, code, x)
    {
      assert table[x] in table && IsStart(c, code, table[x]);
      var s :| InSort(c, code, s) && code[s].start == table[x];
      assert Named(c, code, s, x);
    }
    forall x, y {:trigger Ascending(c, x, y)} | 0 <= x < y < c.sortedEntries
      ensures Ascending(c, x, y)
    {
      assert table[x] < table[y];
    }
    forall s {:trigger Placed(c, s)} | InSort(c, code, s)
      ensures Placed(c, s)
    {
      assert IsStart(c, code, code[s].start);
      var x :| 0 <= x < |table| && table[x] == code[s].start;
      assert Named(c, code, s, x);
    }
  }

  method NameNext(c: Codebook, ghost code: Code, lengths: seq<nat>, values: array<nat>, i: nat)
    requires ReadyToSort(c, code, lengths, values) && SortStorage(c, values) && SortedStarts(c, code)
    requires NamedBelow(c, code, values, i) && i < TableSize(c)
    modifies c.sortedValues, Lengths(c)
    ensures NamedBelow(c, code, values, i + 1)
  {
    OriginalEntry(c, code, lengths, values, i);
    var huffLen := if c.sparse then lengths[values[i]] else lengths[i];
    if c.sparse || (huffLen != NO_CODE && huffLen > FAST_LEN) {
      var s := if c.sparse then values[i] else i;
      NameEntry(c, code, values, i, s, Reverse(c.codewords[i], 32), huffLen);
    }
  }

  method CollectAndSort(c: Codebook, ghost code: Code, lengths: seq<nat>, values: array<nat>)
    requires ReadyToSort(c, code, lengths, values) && SortStorage(c, values)
    modifies c.sortedCodewords
    ensures ReadyToSort(c, code, lengths, values) && SortedStarts(c, code)
  {
    if !c.sparse {
      CollectDense(c, code, lengths, values);
    } else {
      CollectSparse(c, code, lengths, values);
    }
    SortCodewords(c, code, SortItems(c, lengths, values));
  }

  /** Sorts the codewords and records the symbol of each; a sparse book's lengths move along. */
  method ComputeSortedHuffman(c: Codebook, ghost code: Code, lengths: seq<nat>, values: array<nat>)
    requires ReadyToSort(c, code, lengths, values) && SortStorage(c, values) && c.sortedEntries > 0
    modifies c.sortedCodewords, c.sortedValues, Lengths(c)
    ensures SortedTables(c, code)
  {
    CollectAndSort(c, code, lengths, values);
    var len := if c.sparse then c.sortedEntries else c.entries;
    for i := 0 to len
      invariant ReadyToSort(c, code, lengths, values) && SortedStarts(c, code)
      invariant NamedBelow(c, code, values, i)
    {
      NameNext(c, code, lengths, values, i);
    }
    NamedBelowAll(c, code, lengths, values);
    NamedIsSorted(c, code);
  }

  lemma OriginalEntry(c: Codebook, code: Code, lengths: seq<nat>, values: array<nat>, i: nat)
    requires ReadyToSort(c, code, lengths, values) && i < TableSize(c)
    ensures c.codewords != null && i < c.codewords.Length
    ensures c.sparse ==> i < values.Length && values[i] < |lengths|
    ensures !c.sparse ==> i < |lengths|
    ensures
      var huffLen := if c.sparse then lengths[values[i]] else lengths[i];
      var s := Original(c, values, i);
      (InSort(c, code, s) <==> c.sparse || (huffLen != NO_CODE && huffLen > FAST_LEN)) &&
      (InSort(c, code, s) ==> huffLen == code[s].len && Reverse(c.codewords[i], 32) == code[s].start)
  {
    var s := Original(c, values, i);
    if c.sparse {
      assert SparseAt(c, code, lengths, values, i);
    } else {
      assert Listed(c, code, i);
    }
    assert s in code ==> NodeOf(code, s);
    Pow2Values();
    if s in code {
      ReverseInvolution(code[s].start, 32);
    }
  }
}
