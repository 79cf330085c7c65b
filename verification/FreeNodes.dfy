/**
 The free nodes kept while codewords are assigned: at most one per level, `av[z]` being the start of
 the free node of depth `z`, or 0 when that level has none.
 */
module FreeNodes {
  import opened Bits
  import opened CodeTree

  const LEVELS: nat := 32

  ghost predicate Below(av: seq<nat>, y: nat, z: nat)
    requires |av| == LEVELS && y < z < LEVELS
  {
    av[y] != 0 && av[z] != 0 ==> av[z] + Size(z) <= av[y]
  }

  ghost predicate Level(av: seq<nat>, z: nat)
    requires |av| == LEVELS && z < LEVELS
  {
    av[z] != 0 ==> IsNode(Node(av[z], z))
  }

  /** Every entry is a node of its level, and deeper free nodes lie at lower words. */
  ghost predicate Ladder(av: seq<nat>)
  {
    |av| == LEVELS && av[0] == 0 &&
    (forall z :: 1 <= z < LEVELS ==> Level(av, z)) &&
    forall y, z :: 1 <= y < z < LEVELS ==> Below(av, y, z)
  }

  ghost predicate FreeAt(av: seq<nat>, z: nat, p: nat)
    requires |av| == LEVELS && z < LEVELS
  {
    av[z] != 0 && Contains(Node(av[z], z), p)
  }

  ghost predicate IsFree(av: seq<nat>, p: nat)
    requires |av| == LEVELS
  {
    exists z :: 1 <= z < LEVELS && FreeAt(av, z, p)
  }

  /** Assigned and free nodes partition the code space. */
  ghost predicate Partition(ns: seq<Node>, av: seq<nat>)
    requires |av| == LEVELS
  {
    forall p: nat :: p < WORD ==> (Covered(ns, p) <==> !IsFree(av, p))
  }

  /** How many words the free nodes of levels 1 to k - 1 cover. */
  ghost function FreeSize(av: seq<nat>, k: nat): nat
    requires |av| == LEVELS && k <= LEVELS
  {
    if k <= 1 then 0 else FreeSize(av, k - 1) + if av[k - 1] != 0 then Size(k - 1) else 0
  }

  // ----- taking a node and handing back what it does not use -----

  /** The node at level `z` goes to a codeword of length `len`; its unused parts become free. */
  function TakeNode(av: seq<nat>, z: nat, len: nat): (r: seq<nat>)
    requires |av| == LEVELS && z <= len < LEVELS
    ensures |r| == LEVELS
    ensures forall y :: 0 <= y < LEVELS ==>
      r[y] == if y == z then 0 else if z < y <= len then av[z] + Size(y) else av[y]
    decreases len
  {
    if len == z then av[z := 0] else TakeNode(av, z, len - 1)[len := av[z] + Size(len)]
  }

  lemma SizeHalves(z: nat)
    requires z < 32
    ensures Size(z) == 2 * Size(z + 1)
  {}

  lemma SizeMonotone(y: nat, z: nat)
    requires y <= z <= 32
    ensures Size(z) <= Size(y)
    ensures y < z ==> 2 * Size(z) <= Size(y)
  {
    Pow2Monotone(32 - z, 32 - y);
    if y < z {
      Pow2Monotone(32 - z, 31 - y);
    }
  }

  /** Depth bounds the search: with no free node of depth 1 to `z`, the free space is less than one node of depth `z`. */
  lemma {:induction false} OnlyDeepNodes(av: seq<nat>, z: nat, k: nat)
    requires |av| == LEVELS && z < k <= LEVELS
    requires forall y :: 1 <= y <= z ==> av[y] == 0
    ensures FreeSize(av, k) + Size(k - 1) <= Size(z)
  {
    if k == z + 1 {
      NoNodes(av, k);
    } else {
      OnlyDeepNodes(av, z, k - 1);
      SizeHalves(k - 2);
    }
  }

  lemma {:induction false} NoNodes(av: seq<nat>, k: nat)
    requires |av| == LEVELS && k <= LEVELS
    requires forall y :: 1 <= y < k ==> av[y] == 0
    ensures FreeSize(av, k) == 0
  {
    if k > 1 {
      NoNodes(av, k - 1);
    }
  }

  lemma {:induction false} FreeSizeUpdate(av: seq<nat>, z: nat, v: nat, k: nat)
    requires |av| == LEVELS && 1 <= z < LEVELS && k <= LEVELS
    ensures FreeSize(av[z := v], k) ==
      FreeSize(av, k) + if z < k then (if v != 0 then Size(z) else 0) - (if av[z] != 0 then Size(z) else 0) else 0
  {
    if k > 1 {
      FreeSizeUpdate(av, z, v, k - 1);
    }
  }

  lemma {:induction false} TakeNodeSize(av: seq<nat>, z: nat, len: nat)
    requires |av| == LEVELS && 1 <= z <= len < LEVELS && av[z] != 0
    requires forall y :: z < y <= len ==> av[y] == 0
    ensures FreeSize(TakeNode(av, z, len), LEVELS) + Size(len) == FreeSize(av, LEVELS)
  {
    if len == z {
      FreeSizeUpdate(av, z, 0, LEVELS);
    } else {
      TakeNodeSize(av, z, len - 1);
      FreeSizeUpdate(TakeNode(av, z, len - 1), len, av[z] + Size(len), LEVELS);
      SizeHalves(len - 1);
    }
  }

  lemma TakeNodeLadder(av: seq<nat>, z: nat, len: nat)
    requires Ladder(av) && 1 <= z <= len < LEVELS && av[z] != 0
    requires forall y :: z < y <= len ==> av[y] == 0
    ensures Ladder(TakeNode(av, z, len))
  {
    var r := TakeNode(av, z, len);
    forall y | 1 <= y < LEVELS
      ensures Level(r, y)
    {
      if z < y <= len {
        HandedBack(av, z, y);
      } else {
        assert Level(av, y);
      }
    }
    forall x, y | 1 <= x < y < LEVELS
      ensures Below(r, x, y)
    {
      TakeNodeBelow(av, z, len, x, y);
    }
  }

  lemma HandedBack(av: seq<nat>, z: nat, y: nat)
    requires Ladder(av) && 1 <= z < y < LEVELS && av[z] != 0
    ensures IsNode(Node(av[z] + Size(y), y))
    ensures av[z] + 2 * Size(y) <= av[z] + Size(z)
  {
    assert Level(av, z);
    AlignedCoarser(av[z], 32 - z, 32 - y);
    AlignedStep(av[z], 32 - y);
    SizeMonotone(z, y);
  }

  lemma TakeNodeBelow(av: seq<nat>, z: nat, len: nat, x: nat, y: nat)
    requires Ladder(av) && 1 <= z <= len < LEVELS && av[z] != 0
    requires forall y :: z < y <= len ==> av[y] == 0
    requires 1 <= x < y < LEVELS
    ensures Below(TakeNode(av, z, len), x, y)
  {
    var r := TakeNode(av, z, len);
    assert Below(av, x, y);
    if z < y <= len {
      HandedBack(av, z, y);
      SizeMonotone(x, y);
      if x < z {
        assert Below(av, x, z);
      }
    } else if z < x <= len {
      assert Below(av, z, y);
    }
  }

  /** The words of the taken node go to the codeword or stay free. */
  lemma {:induction false} TakeNodeFree(av: seq<nat>, z: nat, len: nat, p: nat)
    requires Ladder(av) && 1 <= z <= len < LEVELS && av[z] != 0
    requires forall y :: z < y <= len ==> av[y] == 0
    ensures IsFree(TakeNode(av, z, len), p) <==> IsFree(av, p) && !Contains(Node(av[z], len), p)
    decreases len
  {
    if len == z {
      var r := TakeNode(av, z, z);
      forall y | 1 <= y < LEVELS && y != z
        ensures FreeAt(r, y, p) <==> FreeAt(av, y, p) && !Contains(Node(av[z], z), p)
      {
        assert y < z ==> Below(av, y, z);
        assert z < y ==> Below(av, z, y);
      }
      assert FreeAt(av, z, p) <==> Contains(Node(av[z], z), p);
    } else {
      TakeNodeFree(av, z, len - 1, p);
      var q, r := TakeNode(av, z, len - 1), TakeNode(av, z, len);
      SizeHalves(len - 1);
      forall y | 1 <= y < LEVELS && y != len
        ensures FreeAt(r, y, p) <==> FreeAt(q, y, p)
      {}
      assert !FreeAt(q, len, p);
      assert FreeAt(r, len, p) <==> Contains(Node(av[z] + Size(len), len), p);
      assert FreeAt(av, z, p) <==> Contains(Node(av[z], z), p);
      HandedBack(av, z, len);
    }
  }

  // ----- the deepest usable free node is the lowest free codeword -----

  /** Free nodes deeper than `z` cannot fill a node of depth `z`: one at least as shallow helps. */
  lemma {:induction false} ShallowNodeNeeded(av: seq<nat>, z: nat, a: nat) returns (y: nat, p: nat)
    requires Ladder(av) && z <= MAX_LEN && Aligned(a, 32 - z)
    requires forall p :: a <= p < a + Size(z) ==> IsFree(av, p)
    ensures 1 <= y <= z && a <= p < a + Size(z) && FreeAt(av, y, p)
    decreases MAX_LEN - z
  {
    var top := a + Size(z) - 1;
    assert IsFree(av, top);
    var d :| 1 <= d < LEVELS && FreeAt(av, d, top);
    if d <= z {
      y, p := d, top;
    } else {
      SizeHalves(z);
      HighNodeInUpperHalf(av, z, a, d);
      AlignedCoarser(a, 32 - z, 31 - z);
      y, p := ShallowNodeNeeded(av, z + 1, a);
      assert y < d ==> Below(av, y, d);
    }
  }

  /** A node deeper than `z` that reaches the last word of [a, a + Size(z)) stays in its upper half. */
  lemma HighNodeInUpperHalf(av: seq<nat>, z: nat, a: nat, d: nat)
    requires |av| == LEVELS && z < MAX_LEN && z < d < LEVELS
    requires FreeAt(av, d, a + Size(z) - 1)
    ensures av[d] >= a + Size(z + 1)
  {
    SizeHalves(z);
    SizeMonotone(z + 1, d);
  }

  /** A node that overlaps a node at least as shallow lies inside it. */
  lemma Nested(c: Node, n: Node, p: nat)
    requires IsNode(c) && IsNode(n) && n.len <= c.len && Contains(c, p) && Contains(n, p)
    ensures n.start <= c.start
  {
    if c.start < n.start {
      AlignedCoarser(n.start, 32 - n.len, 32 - c.len);
      AlignedGap(c.start, n.start, 32 - c.len);
    }
  }

  /** The deepest free node of depth at most `len` starts with the lowest free codeword of length `len`. */
  lemma DeepestIsLowest(ns: seq<Node>, av: seq<nat>, z: nat, len: nat)
    requires Ladder(av) && AllNodes(ns) && Partition(ns, av)
    requires 1 <= z <= len < LEVELS && av[z] != 0
    requires forall y :: z < y <= len ==> av[y] == 0
    ensures LowestFree(Node(av[z], len), ns)
  {
    var n := Node(av[z], len);
    assert Level(av, z);
    AlignedCoarser(av[z], 32 - z, 32 - len);
    SizeMonotone(z, len);
    forall i | 0 <= i < |ns|
      ensures Disjoint(n, ns[i])
    {
      if !Disjoint(n, ns[i]) {
        var p := if n.start <= ns[i].start then ns[i].start else n.start;
        assert IsNode(ns[i]);
        assert Contains(ns[i], p) && FreeAt(av, z, p);
        assert Covered(ns, p) && IsFree(av, p);
      }
    }
    forall c: Node | c.len == len && Free(c, ns)
      ensures n.start <= c.start
    {
      LowestAmongFree(ns, av, z, c);
    }
  }

  lemma FreeNotCovered(c: Node, ns: seq<Node>, p: nat)
    requires Free(c, ns) && Contains(c, p)
    ensures !Covered(ns, p)
  {
    forall j | 0 <= j < |ns|
      ensures !Contains(ns[j], p)
    {
      assert Disjoint(c, ns[j]);
    }
  }

  lemma LowestAmongFree(ns: seq<Node>, av: seq<nat>, z: nat, c: Node)
    requires Ladder(av) && Partition(ns, av)
    requires 1 <= z <= c.len < LEVELS && av[z] != 0
    requires forall y :: z < y <= c.len ==> av[y] == 0
    requires Free(c, ns)
    ensures av[z] <= c.start
  {
    forall p | c.start <= p < c.start + Size(c.len)
      ensures IsFree(av, p)
    {
      FreeNotCovered(c, ns, p);
    }
    var y, p := ShallowNodeNeeded(av, c.len, c.start);
    assert Level(av, y);
    Nested(c, Node(av[y], y), p);
    if y < z {
      assert Below(av, y, z);
    }
  }

  lemma TakeNodePartition(ns: seq<Node>, av: seq<nat>, z: nat, len: nat)
    requires Ladder(av) && Partition(ns, av)
    requires 1 <= z <= len < LEVELS && av[z] != 0
    requires forall y :: z < y <= len ==> av[y] == 0
    ensures Partition(ns + [Node(av[z], len)], TakeNode(av, z, len))
  {
    var n := Node(av[z], len);
    var ms := ns + [n];
    SizeMonotone(z, len);
    forall p: nat | p < WORD
      ensures Covered(ms, p) <==> !IsFree(TakeNode(av, z, len), p)
    {
      CoveredLast(ms, p);
      assert ms[..|ms| - 1] == ns;
      TakeNodeFree(av, z, len, p);
      assert Contains(n, p) ==> FreeAt(av, z, p);
    }
  }

  // ----- the first codeword -----

  /** The free nodes once the all-zero codeword of length `len` is assigned. */
  function FirstFree(len: nat): (r: seq<nat>)
    requires len < LEVELS
    ensures |r| == LEVELS && forall y :: 0 <= y < LEVELS ==> r[y] == if 1 <= y <= len then Size(y) else 0
  {
    if len == 0 then seq(LEVELS, _ => 0) else FirstFree(len - 1)[len := Size(len)]
  }

  lemma SizeRoot()
    ensures Size(0) == WORD
  {
    Pow2Values();
  }

  lemma FirstLevel(y: nat)
    requires 1 <= y < LEVELS
    ensures IsNode(Node(Size(y), y))
  {
    AlignedZero(32 - y);
    AlignedStep(0, 32 - y);
    SizeMonotone(0, y);
    SizeRoot();
  }

  lemma FirstFreeLadder(len: nat)
    requires len < LEVELS
    ensures Ladder(FirstFree(len))
  {
    var r := FirstFree(len);
    forall y | 1 <= y < LEVELS
      ensures Level(r, y)
    {
      FirstLevel(y);
    }
    forall x, y | 1 <= x < y < LEVELS
      ensures Below(r, x, y)
    {
      SizeMonotone(x, y);
    }
  }

  lemma {:induction false} AlignedZero(k: nat)
    ensures Aligned(0, k)
  {
    if k > 0 {
      AlignedZero(k - 1);
    }
  }

  lemma {:induction false} FirstFreeWords(len: nat, p: nat)
    requires len < LEVELS
    ensures IsFree(FirstFree(len), p) <==> Size(len) <= p < Size(0)
  {
    var r := FirstFree(len);
    if len == 0 {
      assert !IsFree(r, p);
    } else {
      var q := FirstFree(len - 1);
      FirstFreeWords(len - 1, p);
      SizeHalves(len - 1);
      forall y | 1 <= y < LEVELS && y != len
        ensures FreeAt(r, y, p) <==> FreeAt(q, y, p)
      {}
      assert !FreeAt(q, len, p);
      assert FreeAt(r, len, p) <==> Size(len) <= p < Size(len - 1);
      SizeMonotone(0, len - 1);
    }
  }

  lemma {:induction false} FirstFreeSize(len: nat)
    requires len < LEVELS
    ensures FreeSize(FirstFree(len), LEVELS) + Size(len) == Size(0)
  {
    if len == 0 {
      NoNodes(FirstFree(0), LEVELS);
    } else {
      FirstFreeSize(len - 1);
      FreeSizeUpdate(FirstFree(len - 1), len, Size(len), LEVELS);
      SizeHalves(len - 1);
    }
  }

  lemma FirstPartition(len: nat)
    requires 1 <= len < LEVELS
    ensures IsNode(Node(0, len)) && LowestFree(Node(0, len), [])
    ensures Partition([Node(0, len)], FirstFree(len))
  {
    AlignedZero(32 - len);
    SizeMonotone(0, len);
    SizeRoot();
    forall p: nat | p < WORD
      ensures Covered([Node(0, len)], p) <==> !IsFree(FirstFree(len), p)
    {
      FirstFreeWords(len, p);
      assert Covered([Node(0, len)], p) <==> Contains([Node(0, len)][0], p);
    }
  }
}
