/** Building the codewords of a codebook from the lengths read in the stream header. */
module Codebooks {
  import opened Bits
  import opened CodeTree
  import opened FreeNodes
  import opened CodeMap

  const NO_CODE: nat := 255

  ghost predicate ValidLens(lens: seq<nat>)
  {
    forall i :: 0 <= i < |lens| ==> 1 <= lens[i] <= MAX_LEN || lens[i] == 255
  }

  /** The lengths of the entries that have a codeword, in order. */
  ghost function CodedLengths(lens: seq<nat>): (r: seq<nat>)
    ensures |r| <= |lens|
  {
    if lens == [] then []
    else
      var k := |lens| - 1;
      CodedLengths(lens[..k]) + if lens[k] == NO_CODE then [] else [lens[k]]
  }

  /** The position of entry `s` among the entries that have a codeword. */
  ghost function Rank(lens: seq<nat>, s: nat): nat
    requires s <= |lens|
  {
    |CodedLengths(lens[..s])|
  }

  lemma RankNext(lens: seq<nat>, s: nat)
    requires s < |lens|
    ensures CodedLengths(lens[..s + 1]) == CodedLengths(lens[..s]) + if lens[s] == NO_CODE then [] else [lens[s]]
    ensures Rank(lens, s + 1) == Rank(lens, s) + if lens[s] == NO_CODE then 0 else 1
  {
    assert lens[..s + 1][..s] == lens[..s];
  }

  lemma {:induction false} RankMonotone(lens: seq<nat>, s: nat, t: nat)
    requires s <= t <= |lens|
    ensures CodedLengths(lens[..s]) <= CodedLengths(lens[..t])
    ensures s < t && lens[s] != NO_CODE ==> Rank(lens, s) < Rank(lens, t)
    decreases t - s
  {
    if s < t {
      RankMonotone(lens, s, t - 1);
      RankNext(lens, t - 1);
    }
  }

  lemma RankInRange(lens: seq<nat>, s: nat)
    requires s < |lens| && lens[s] != NO_CODE
    ensures Rank(lens, s) < |CodedLengths(lens)| && CodedLengths(lens)[Rank(lens, s)] == lens[s]
  {
    assert lens[..|lens|] == lens;
    RankNext(lens, s);
    RankMonotone(lens, s + 1, |lens|);
  }

  ghost function Total(lens: seq<nat>, s: nat): nat
    requires s <= |lens|
  {
    Kraft(CodedLengths(lens[..s]))
  }

  lemma TotalNext(lens: seq<nat>, s: nat)
    requires s < |lens|
    ensures Total(lens, s + 1) == Total(lens, s) + if lens[s] == NO_CODE then 0 else Size(lens[s])
  {
    RankNext(lens, s);
    var before, after := CodedLengths(lens[..s]), CodedLengths(lens[..s + 1]);
    if lens[s] == NO_CODE {
      assert after == before;
    } else {
      assert after[..|after| - 1] == before;
    }
  }

  lemma {:induction false} TotalMonotone(lens: seq<nat>, s: nat, t: nat)
    requires s <= t <= |lens|
    ensures Total(lens, s) <= Total(lens, t)
    decreases t - s
  {
    if s < t {
      TotalMonotone(lens, s, t - 1);
      TotalNext(lens, t - 1);
    }
  }

  lemma AssignmentGrows(ls: seq<nat>, ns: seq<Node>, n: Node)
    requires Assignment(ls, ns) && LowestFree(n, ns)
    ensures Assignment(ls + [n.len], ns + [n])
  {
    var ms := ns + [n];
    forall j | 0 <= j < |ms|
      ensures ms[j].len == (ls + [n.len])[j] && LowestFree(ms[j], ms[..j])
    {
      assert ms[..j] == ns[..j];
      if j < |ns| {
        assert LowestFree(ns[j], ns[..j]);
      } else {
        assert ns[..j] == ns;
      }
    }
  }

  /** What is known between two entries: the nodes given out, the nodes still free, and how much each covers. */
  ghost predicate Progress(lens: seq<nat>, i: nat, ns: seq<Node>, av: seq<nat>)
    requires i <= |lens|
  {
    Assignment(CodedLengths(lens[..i]), ns) &&
    Ladder(av) && Partition(ns, av) && Total(lens, i) + FreeSize(av, LEVELS) == WORD
  }

  lemma ProgressFirst(lens: seq<nat>, k: nat)
    requires ValidLens(lens) && k < |lens| && lens[k] != NO_CODE && Rank(lens, k) == 0
    ensures Progress(lens, k + 1, [Node(0, lens[k])], FirstFree(lens[k]))
  {
    RankNext(lens, k);
    TotalNext(lens, k);
    FirstFreeLadder(lens[k]);
    FirstPartition(lens[k]);
    FirstFreeSize(lens[k]);
    Pow2Values();
    var n := Node(0, lens[k]);
    assert Assignment([], []);
    AssignmentGrows([], [], n);
    assert [] + [n.len] == CodedLengths(lens[..k + 1]) && [] + [n] == [n];
  }

  lemma ProgressNext(lens: seq<nat>, i: nat, ns: seq<Node>, av: seq<nat>, z: nat)
    requires ValidLens(lens) && i < |lens| && lens[i] != NO_CODE && Progress(lens, i, ns, av)
    requires 1 <= z <= lens[i] && av[z] != 0
    requires forall y :: z < y <= lens[i] ==> av[y] == 0
    ensures Progress(lens, i + 1, ns + [Node(av[z], lens[i])], TakeNode(av, z, lens[i]))
  {
    var len, n := lens[i], Node(av[z], lens[i]);
    RankNext(lens, i);
    TotalNext(lens, i);
    AssignmentPrefixFree(CodedLengths(lens[..i]), ns);
    DeepestIsLowest(ns, av, z, len);
    AssignmentGrows(CodedLengths(lens[..i]), ns, n);
    TakeNodeLadder(av, z, len);
    TakeNodePartition(ns, av, z, len);
    TakeNodeSize(av, z, len);
  }

  lemma NoRoom(lens: seq<nat>, i: nat, ns: seq<Node>, av: seq<nat>)
    requires ValidLens(lens) && i < |lens| && lens[i] != NO_CODE && Progress(lens, i, ns, av)
    requires forall y :: 1 <= y <= lens[i] ==> av[y] == 0
    ensures Total(lens, |lens|) > WORD
  {
    OnlyDeepNodes(av, lens[i], LEVELS);
    TotalNext(lens, i);
    TotalMonotone(lens, i + 1, |lens|);
  }

  /** The code that gives each coded entry its node. */
  ghost function CodeOf(lens: seq<nat>, ns: seq<Node>): Code
    requires |ns| == |CodedLengths(lens)|
  {
    map s: nat | 0 <= s < |lens| && lens[s] != NO_CODE :: RankedNode(lens, ns, s)
  }

  ghost function RankedNode(lens: seq<nat>, ns: seq<Node>, s: nat): Node
    requires s < |lens| && lens[s] != NO_CODE && |ns| == |CodedLengths(lens)|
  {
    RankInRange(lens, s);
    ns[Rank(lens, s)]
  }

  lemma AssignedAt(ls: seq<nat>, ns: seq<Node>, j: nat)
    requires Assignment(ls, ns) && j < |ls|
    ensures IsNode(ns[j]) && ns[j].len == ls[j]
  {
    assert LowestFree(ns[j], ns[..j]);
  }

  lemma RankedNodeAt(lens: seq<nat>, ns: seq<Node>, s: nat)
    requires Assignment(CodedLengths(lens), ns) && s < |lens| && lens[s] != NO_CODE
    ensures IsNode(RankedNode(lens, ns, s)) && RankedNode(lens, ns, s).len == lens[s]
  {
    RankInRange(lens, s);
    AssignedAt(CodedLengths(lens), ns, Rank(lens, s));
  }

  lemma RankedApart(lens: seq<nat>, ns: seq<Node>, s: nat, t: nat)
    requires PrefixFree(ns) && |ns| == |CodedLengths(lens)|
    requires s < t < |lens| && lens[s] != NO_CODE && lens[t] != NO_CODE
    ensures Disjoint(RankedNode(lens, ns, s), RankedNode(lens, ns, t))
  {
    RankMonotone(lens, s, t);
    RankInRange(lens, t);
    assert Disjoint(ns[Rank(lens, s)], ns[Rank(lens, t)]);
  }

  lemma CodeOfValid(lens: seq<nat>, ns: seq<Node>)
    requires Assignment(CodedLengths(lens), ns)
    ensures ValidCode(CodeOf(lens, ns))
    ensures forall s :: s in CodeOf(lens, ns) ==> CodeOf(lens, ns)[s].len == lens[s]
  {
    var code := CodeOf(lens, ns);
    AssignmentPrefixFree(CodedLengths(lens), ns);
    forall s | s in code
      ensures NodeOf(code, s) && code[s].len == lens[s]
    {
      RankedNodeAt(lens, ns, s);
    }
    forall s, t | s in code && t in code && s != t
      ensures Apart(code, s, t)
    {
      if s < t {
        RankedApart(lens, ns, s, t);
      } else {
        RankedApart(lens, ns, t, s);
      }
    }
  }

  lemma {:induction false} SymbolOfRank(lens: seq<nat>, k: nat, j: nat) returns (s: nat)
    requires k <= |lens| && j < Rank(lens, k)
    ensures s < k && lens[s] != NO_CODE && Rank(lens, s) == j
  {
    RankNext(lens, k - 1);
    if j < Rank(lens, k - 1) {
      s := SymbolOfRank(lens, k - 1, j);
    } else {
      s := k - 1;
    }
  }

  /** With Kraft sum one, every word starts with a codeword. */
  lemma CodeOfComplete(lens: seq<nat>, ns: seq<Node>)
    requires Assignment(CodedLengths(lens), ns) && Kraft(CodedLengths(lens)) == WORD
    ensures CompleteCode(CodeOf(lens, ns))
  {
    var code := CodeOf(lens, ns);
    AssignmentPrefixFree(CodedLengths(lens), ns);
    AssignmentLengths(CodedLengths(lens), ns);
    KraftInequality(ns);
    Pow2Values();
    assert lens[..|lens|] == lens;
    forall acc: nat | acc < WORD
      ensures HitsSome(code, acc)
    {
      ReverseBound(acc, 32);
      assert Covered(ns, Reverse(acc, 32));
      var j :| 0 <= j < |ns| && Contains(ns[j], Reverse(acc, 32));
      var s := SymbolOfRank(lens, |lens|, j);
      RankedNodeAt(lens, ns, s);
      MatchIsContainment(ns[j], acc);
      assert Hit(code, s, acc);
    }
  }

  lemma AssignmentLengths(ls: seq<nat>, ns: seq<Node>)
    requires Assignment(ls, ns)
    ensures Lengths(ns) == ls
  {
    forall j | 0 <= j < |ns|
      ensures ns[j].len == ls[j]
    {
      AssignedAt(ls, ns, j);
    }
  }

  class Codebook {
    var sparse: bool
    var entries: nat
    var sortedEntries: nat
    /** Dense books index both tables by symbol; sparse books index lengths by sorted position and drop the codewords. */
    var codewords: array?<nat>
    var codewordLengths: array<nat>
    var sortedCodewords: array?<nat>
    var sortedValues: array<int>
    var fastHuffman: array<int>

    /** Storage for `n` entries, of which `sorted` are to be sorted; a sparse book keeps only those. */
    constructor (n: nat, sorted: nat, sparse: bool)
      ensures this.sparse == sparse && entries == n && sortedEntries == sorted && sortedCodewords == null
      ensures codewords != null && fresh(codewords) && fresh(codewordLengths) && fresh(fastHuffman) && fresh(sortedValues)
      ensures codewords.Length == codewordLengths.Length == if sparse then sorted else n
      ensures codewords != codewordLengths && fastHuffman != sortedValues
      ensures fastHuffman.Length == 1024 && sortedValues.Length == sorted
    {
      this.sparse, entries, sortedEntries := sparse, n, sorted;
      var size := if sparse then sorted else n;
      codewords := new nat[size];
      codewordLengths := new nat[size];
      sortedCodewords := null;
      sortedValues := new int[sorted];
      fastHuffman := new int[1024];
    }

    /** Entry `s` of the header has been stored with its node of `ns` as its codeword. */
    ghost predicate Stored(lens: seq<nat>, s: nat, ns: seq<Node>, values: array<nat>)
      requires s < |lens|
      reads this, codewords, codewordLengths, values
    {
      var j := Rank(lens, s);
      j < |ns| && codewords != null &&
      var n := ns[j];
      if sparse then
        j < codewords.Length && j < codewordLengths.Length && j < values.Length &&
        codewords[j] == Reverse(n.start, 32) && codewordLengths[j] == n.len && values[j] == s
      else
        s < codewords.Length && codewords[s] == Reverse(n.start, 32)
    }

    ghost predicate Fits(lens: seq<nat>, values: array<nat>)
      reads this
    {
      codewords != null && codewords != codewordLengths && codewords != values && codewordLengths != values &&
      if sparse then
        codewords.Length == codewordLengths.Length == values.Length == Rank(lens, |lens|)
      else
        codewords.Length == |lens|
    }

    ghost predicate StoredBelow(lens: seq<nat>, i: nat, ns: seq<Node>, values: array<nat>)
      requires i <= |lens|
      reads this, codewords, codewordLengths, values
    {
      forall s {:trigger Stored(lens, s, ns, values)} :: 0 <= s < i && lens[s] != NO_CODE ==> Stored(lens, s, ns, values)
    }

    /** The tables that receive codewords: a dense book keeps its lengths as they were read. */
    ghost function Targets(values: array<nat>): set<array?<nat>>
      reads this
    {
      if sparse then {codewords, codewordLengths, values} else {codewords}
    }

    /** Stores one codeword; in a sparse book the entry takes the next compact slot. */
    method AddEntry(huffCode: nat, symbol: nat, count: nat, len: nat, values: array<nat>, ghost lens: seq<nat>, ghost ns: seq<Node>)
      requires Fits(lens, values) && symbol < |lens| && lens[symbol] == len != NO_CODE
      requires count == Rank(lens, symbol) == |ns| && StoredBelow(lens, symbol, ns, values)
      modifies Targets(values)
      ensures forall n: Node :: n.len == len && Reverse(n.start, 32) == huffCode ==> StoredBelow(lens, symbol + 1, ns + [n], values)
    {
      RankMonotone(lens, symbol, |lens|);
      assert lens[..|lens|] == lens;
      if !sparse {
        codewords[symbol] := huffCode;
      } else {
        codewords[count] := huffCode;
        codewordLengths[count] := len;
        values[count] := symbol;
      }
      forall n: Node, s | n.len == len && Reverse(n.start, 32) == huffCode && 0 <= s < symbol + 1 && lens[s] != NO_CODE
        ensures Stored(lens, s, ns + [n], values)
      {
        if s < symbol {
          assert old(Stored(lens, s, ns, values));
          RankMonotone(lens, s, symbol);
        }
      }
    }

    /** The first entry gets the all-zero codeword. */
    method AssignFirst(len: seq<nat>, k: nat, values: array<nat>) returns (available: array<nat>, ghost ns: seq<Node>)
      requires ValidLens(len) && Fits(len, values) && k < |len| && len[k] != NO_CODE && Rank(len, k) == 0
      requires forall s :: 0 <= s < k ==> len[s] == NO_CODE
      modifies Targets(values)
      ensures fresh(available)
      ensures Rank(len, k + 1) == 1 && Progress(len, k + 1, ns, available[..]) && StoredBelow(len, k + 1, ns, values)
    {
      RankNext(len, k);
      ghost var first := Node(0, len[k]);
      AddEntry(0, k, 0, len[k], values, len, []);
      ReverseOfZero(32);
      assert first.len == len[k] && Reverse(first.start, 32) == 0;
      ns := [] + [first];
      assert ns == [first];
      available := InitialNodes(len[k]);
      ProgressFirst(len, k);
    }

    /** Gives entry `i` the deepest free node of depth at most its length, handing back what it does not need. */
    method AssignNode(len: seq<nat>, i: nat, m: nat, available: array<nat>, values: array<nat>, ghost ns: seq<Node>)
      returns (ok: bool, ghost ns': seq<Node>)
      requires ValidLens(len) && Fits(len, values) && i < |len| && len[i] != NO_CODE
      requires available != codewords && available != codewordLengths && available != values
      requires m == Rank(len, i) && Progress(len, i, ns, available[..]) && StoredBelow(len, i, ns, values)
      modifies available, Targets(values)
      ensures ok ==> Progress(len, i + 1, ns', available[..]) && StoredBelow(len, i + 1, ns', values)
      ensures !ok ==> Total(len, |len|) > WORD
    {
      ghost var av := available[..];
      var z := FindLevel(available, len[i]);
      if z == 0 {
        NoRoom(len, i, ns, av);
        return false, ns;
      }
      var res := available[z];
      ghost var n := Node(res, len[i]);
      ns' := ns + [n];
      ProgressNext(len, i, ns, av, z);
      HandBack(available, z, len[i]);
      AddEntry(Reverse(res, 32), i, m, len[i], values, len, ns);
      assert n.len == len[i] && Reverse(n.start, 32) == Reverse(res, 32);
      ok := true;
    }

    method AssignNext(len: seq<nat>, i: nat, m: nat, available: array<nat>, values: array<nat>, ghost ns: seq<Node>)
      returns (ok: bool, m': nat, ghost ns': seq<Node>)
      requires ValidLens(len) && Fits(len, values) && i < |len|
      requires available != codewords && available != codewordLengths && available != values
      requires m == Rank(len, i) && Progress(len, i, ns, available[..]) && StoredBelow(len, i, ns, values)
      modifies available, Targets(values)
      ensures ok ==> m' == Rank(len, i + 1) && Progress(len, i + 1, ns', available[..]) && StoredBelow(len, i + 1, ns', values)
      ensures !ok ==> Total(len, |len|) > WORD
    {
      RankNext(len, i);
      if len[i] == NO_CODE {
        SkipEntry(len, i, ns, available[..]);
        return true, m, ns;
      }
      ok, ns' := AssignNode(len, i, m, available, values, ns);
      m' := m + 1;
    }

    /**
     Assigns codewords to unsorted lengths. It succeeds exactly when the lengths satisfy Kraft's
     inequality, and then the codewords are those of the specification, stored bit reversed.
     */
    method ComputeCodewords(len: seq<nat>, values: array<nat>) returns (ok: bool, ghost ns: seq<Node>)
      requires ValidLens(len) && Fits(len, values)
      modifies Targets(values)
      ensures ok <==> Kraft(CodedLengths(len)) <= WORD
      ensures ok ==> Assignment(CodedLengths(len), ns) && StoredBelow(len, |len|, ns, values)
    {
      ns := [];
      var n := |len|;
      var k := 0;
      while k < n && len[k] == NO_CODE
        invariant 0 <= k <= n && CodedLengths(len[..k]) == []
        invariant forall s :: 0 <= s < k ==> len[s] == NO_CODE
      {
        RankNext(len, k);
        k := k + 1;
      }
      assert len[..n] == len;
      if k == n {
        return true, ns;
      }
      var available;
      available, ns := AssignFirst(len, k, values);
      var m := 1;
      for i := k + 1 to n
        invariant m == Rank(len, i)
        invariant Progress(len, i, ns, available[..]) && StoredBelow(len, i, ns, values)
      {
        ok, m, ns := AssignNext(len, i, m, available, values, ns);
        if !ok {
          return;
        }
      }
      return true, ns;
    }
  }

  lemma SkipEntry(lens: seq<nat>, i: nat, ns: seq<Node>, av: seq<nat>)
    requires i < |lens| && lens[i] == NO_CODE && Progress(lens, i, ns, av)
    ensures Progress(lens, i + 1, ns, av)
  {
    RankNext(lens, i);
    TotalNext(lens, i);
    assert CodedLengths(lens[..i + 1]) == CodedLengths(lens[..i]);
  }

  method InitialNodes(len: nat) returns (available: array<nat>)
    requires 1 <= len <= MAX_LEN
    ensures fresh(available) && available[..] == FirstFree(len)
  {
    available := new nat[LEVELS](_ => 0);
    for i := 1 to len + 1
      invariant available[..] == FirstFree(i - 1)
    {
      available[i] := Pow2(32 - i);
      assert available[..] == FirstFree(i - 1)[i := Size(i)];
    }
  }

  method FindLevel(available: array<nat>, len: nat) returns (z: nat)
    requires available.Length == LEVELS && len < LEVELS
    ensures z <= len
    ensures z > 0 ==> available[z] != 0
    ensures forall y :: z < y <= len ==> available[y] == 0
  {
    z := len;
    while z > 0 && available[z] == 0
      invariant z <= len
      invariant forall y :: z < y <= len ==> available[y] == 0
    {
      z := z - 1;
    }
  }

  /** Zeroes the level of the taken node and frees its unused halves, from the deepest up. */
  method HandBack(available: array<nat>, z: nat, len: nat)
    requires available.Length == LEVELS && z <= len < LEVELS
    modifies available
    ensures available[..] == TakeNode(old(available[..]), z, len)
  {
    var res := available[z];
    available[z] := 0;
    var y := len;
    while y > z
      invariant z <= y <= len
      invariant available[z] == 0
      invariant forall x :: y < x <= len ==> available[x] == res + Size(x)
      invariant forall x :: 0 <= x < LEVELS && x != z && !(y < x <= len) ==> available[x] == old(available[x])
    {
      available[y] := res + Pow2(32 - y);
      y := y - 1;
    }
  }
}
