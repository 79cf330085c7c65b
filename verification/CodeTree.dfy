/**
 The Huffman tree behind a Vorbis codebook (Vorbis I, section 3.2.1).
 A node of depth `len` is the dyadic interval of 32-bit words that start with its path,
 the first bit of the path being the most significant.
 */
module CodeTree {
  import opened Bits

  const MAX_LEN: nat := 31

  /** How many 32-bit words a node of depth `z` covers. */
  function Size(z: nat): (r: nat)
    ensures r >= 1
  {
    if z <= 32 then Pow2(32 - z) else 1
  }

  datatype Node = Node(start: nat, len: nat)

  ghost predicate IsNode(n: Node)
  {
    1 <= n.len <= MAX_LEN && Aligned(n.start, 32 - n.len) && n.start + Size(n.len) <= WORD
  }

  ghost predicate Contains(n: Node, p: nat)
  {
    n.start <= p < n.start + Size(n.len)
  }

  ghost predicate Disjoint(a: Node, b: Node)
  {
    a.start + Size(a.len) <= b.start || b.start + Size(b.len) <= a.start
  }

  ghost predicate AllNodes(ns: seq<Node>)
  {
    forall j {:trigger IsNode(ns[j])} :: 0 <= j < |ns| ==> IsNode(ns[j])
  }

  ghost predicate PrefixFree(ns: seq<Node>)
  {
    forall i, j {:trigger Disjoint(ns[i], ns[j])} :: 0 <= i < j < |ns| ==> Disjoint(ns[i], ns[j])
  }

  ghost predicate Free(n: Node, taken: seq<Node>)
  {
    IsNode(n) && forall i {:trigger Disjoint(n, taken[i])} :: 0 <= i < |taken| ==> Disjoint(n, taken[i])
  }

  /** `n` is the lowest valued node of its depth that overlaps nothing in `taken`. */
  ghost predicate LowestFree(n: Node, taken: seq<Node>)
  {
    Free(n, taken) && forall c: Node {:trigger Free(c, taken)} :: c.len == n.len && Free(c, taken) ==> n.start <= c.start
  }

  /** The assignment the specification asks for: every entry in turn gets the lowest free codeword. */
  ghost predicate Assignment(ls: seq<nat>, ns: seq<Node>)
  {
    |ns| == |ls| && forall j {:trigger LowestFree(ns[j], ns[..j])} :: 0 <= j < |ns| ==>
      ns[j].len == ls[j] && LowestFree(ns[j], ns[..j])
  }

  /** The Kraft sum, scaled by 2^32. */
  ghost function Kraft(ls: seq<nat>): nat
  {
    if ls == [] then 0 else Kraft(ls[..|ls| - 1]) + Size(ls[|ls| - 1])
  }

  ghost predicate Covered(ns: seq<Node>, p: nat)
  {
    exists j :: 0 <= j < |ns| && Contains(ns[j], p)
  }

  ghost predicate Complete(ns: seq<Node>)
  {
    forall p: nat :: p < WORD ==> Covered(ns, p)
  }

  lemma AssignmentPrefixFree(ls: seq<nat>, ns: seq<Node>)
    requires Assignment(ls, ns)
    ensures AllNodes(ns) && PrefixFree(ns)
  {
    forall j | 0 <= j < |ns|
      ensures IsNode(ns[j])
    {
      assert LowestFree(ns[j], ns[..j]);
    }
    forall i, j | 0 <= i < j < |ns|
      ensures Disjoint(ns[i], ns[j])
    {
      assert LowestFree(ns[j], ns[..j]) && Disjoint(ns[j], ns[..j][i]);
    }
  }

  /** The specification determines the codewords: there is at most one assignment. */
  lemma {:induction false} AssignmentUnique(ls: seq<nat>, ns: seq<Node>, ms: seq<Node>, k: nat)
    requires Assignment(ls, ns) && Assignment(ls, ms) && k <= |ls|
    ensures ns[..k] == ms[..k]
  {
    if k > 0 {
      AssignmentUnique(ls, ns, ms, k - 1);
      assert LowestFree(ns[k - 1], ns[..k - 1]) && LowestFree(ms[k - 1], ms[..k - 1]);
      LowestFreeUnique(ns[k - 1], ms[k - 1], ns[..k - 1]);
      assert ns[..k] == ns[..k - 1] + [ns[k - 1]] && ms[..k] == ms[..k - 1] + [ms[k - 1]];
    }
  }

  lemma LowestFreeUnique(a: Node, b: Node, taken: seq<Node>)
    requires LowestFree(a, taken) && LowestFree(b, taken) && a.len == b.len
    ensures a == b
  {}

  // ----- Kraft's inequality, by counting words -----

  ghost predicate Between(lo: nat, p: nat, hi: nat)
  {
    lo <= p < hi
  }

  ghost function Interval(lo: nat, hi: nat): set<nat>
  {
    set p | lo <= p < hi && Between(lo, p, hi)
  }

  lemma {:induction false} IntervalSize(lo: nat, hi: nat)
    requires lo <= hi
    ensures |Interval(lo, hi)| == hi - lo
    decreases hi - lo
  {
    if lo < hi {
      IntervalSize(lo, hi - 1);
      assert Between(lo, hi - 1, hi);
      forall p | lo <= p < hi
        ensures p in Interval(lo, hi) <==> p in Interval(lo, hi - 1) + {hi - 1}
      {
        assert Between(lo, p, hi) && (p < hi - 1 ==> Between(lo, p, hi - 1));
      }
      assert Interval(lo, hi) == Interval(lo, hi - 1) + {hi - 1};
    }
  }

  ghost function NodeWords(n: Node): (r: set<nat>)
    ensures |r| == Size(n.len)
    ensures forall p :: p in r <==> Contains(n, p)
  {
    IntervalSize(n.start, n.start + Size(n.len));
    assert forall p :: Contains(n, p) <==> Between(n.start, p, n.start + Size(n.len));
    Interval(n.start, n.start + Size(n.len))
  }

  /** The words that start with some codeword. */
  ghost function Words(ns: seq<Node>): set<nat>
  {
    if ns == [] then {} else Words(ns[..|ns| - 1]) + NodeWords(ns[|ns| - 1])
  }

  lemma {:induction false} WordsCovered(ns: seq<Node>, p: nat)
    ensures p in Words(ns) <==> Covered(ns, p)
  {
    if ns != [] {
      WordsCovered(ns[..|ns| - 1], p);
      CoveredLast(ns, p);
    }
  }

  ghost function Lengths(ns: seq<Node>): (ls: seq<nat>)
    ensures |ls| == |ns| && forall j :: 0 <= j < |ls| ==> ls[j] == ns[j].len
  {
    seq(|ns|, j requires 0 <= j < |ns| => ns[j].len)
  }

  lemma KraftStep(ns: seq<Node>)
    requires |ns| > 0
    ensures Kraft(Lengths(ns)) == Kraft(Lengths(ns[..|ns| - 1])) + Size(ns[|ns| - 1].len)
  {
    var k := |ns| - 1;
    assert Lengths(ns)[..k] == Lengths(ns[..k]);
  }

  lemma {:induction false} WordCount(ns: seq<Node>)
    requires PrefixFree(ns)
    ensures |Words(ns)| == Kraft(Lengths(ns))
  {
    if ns != [] {
      var front := ns[..|ns| - 1];
      WordCount(front);
      KraftStep(ns);
      LastWordsNew(ns);
      UnionSize(Words(front), NodeWords(ns[|ns| - 1]));
    }
  }

  lemma UnionSize(a: set<nat>, b: set<nat>)
    requires a !! b
    ensures |a + b| == |a| + |b|
  {}

  lemma LastWordsNew(ns: seq<Node>)
    requires PrefixFree(ns) && |ns| > 0
    ensures Words(ns[..|ns| - 1]) !! NodeWords(ns[|ns| - 1])
  {
    var front, last := ns[..|ns| - 1], ns[|ns| - 1];
    forall p | p in Words(front)
      ensures p !in NodeWords(last)
    {
      WordsCovered(front, p);
      CoveredLast(ns, p);
    }
  }

  lemma CoveredLast(ns: seq<Node>, p: nat)
    requires |ns| > 0
    ensures var k := |ns| - 1;
            Covered(ns, p) <==> Covered(ns[..k], p) || Contains(ns[k], p)
    ensures var k := |ns| - 1;
            PrefixFree(ns) && Covered(ns[..k], p) ==> !Contains(ns[k], p)
  {
    var k := |ns| - 1;
    if Covered(ns[..k], p) {
      var j :| 0 <= j < k && Contains(ns[..k][j], p);
      assert Contains(ns[j], p);
      assert PrefixFree(ns) ==> Disjoint(ns[j], ns[k]);
    }
    if Covered(ns, p) && !Contains(ns[k], p) {
      var j :| 0 <= j < |ns| && Contains(ns[j], p);
      assert Contains(ns[..k][j], p);
    }
  }

  lemma SubsetSize(a: set<nat>, b: set<nat>)
    requires a <= b
    ensures |a| <= |b|
    ensures |a| == |b| ==> a == b
  {
    assert b == a + (b - a);
    UnionSize(a, b - a);
  }

  /** A prefix-free code has Kraft sum at most one, and exactly one when every word starts with a codeword. */
  lemma KraftInequality(ns: seq<Node>)
    requires AllNodes(ns) && PrefixFree(ns)
    ensures Kraft(Lengths(ns)) <= WORD
    ensures Kraft(Lengths(ns)) == WORD <==> Complete(ns)
  {
    WordCount(ns);
    IntervalSize(0, WORD);
    CompleteWords(ns);
    SubsetSize(Words(ns), Interval(0, WORD));
  }

  lemma CompleteWords(ns: seq<Node>)
    requires AllNodes(ns)
    ensures Words(ns) <= Interval(0, WORD)
    ensures Words(ns) == Interval(0, WORD) <==> Complete(ns)
  {
    forall p | p in Words(ns)
      ensures p < WORD
    {
      WordsCovered(ns, p);
      var j :| 0 <= j < |ns| && Contains(ns[j], p);
      assert IsNode(ns[j]);
    }
    forall p: nat | p < WORD
      ensures p in Interval(0, WORD) && (p in Words(ns) <==> Covered(ns, p))
    {
      assert Between(0, p, WORD);
      WordsCovered(ns, p);
    }
  }
}
