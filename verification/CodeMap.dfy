/** A prefix code as a map from symbols to tree nodes, and what it means for a word to start with a codeword. */
module CodeMap {
  import opened Bits
  import opened CodeTree

  type Code = map<nat, Node>

  ghost predicate Apart(code: Code, s: nat, t: nat)
    requires s in code && t in code
  {
    Disjoint(code[s], code[t])
  }

  ghost predicate NodeOf(code: Code, s: nat)
    requires s in code
  {
    IsNode(code[s])
  }

  ghost predicate ValidCode(code: Code)
  {
    (forall s {:trigger NodeOf(code, s)} :: s in code ==> NodeOf(code, s)) &&
    forall s, t {:trigger Apart(code, s, t)} :: s in code && t in code && s != t ==> Apart(code, s, t)
  }

  /** The stored form of a codeword: read from the stream least significant bit first. */
  ghost function Codeword(n: Node): nat
  {
    Reverse(n.start, 32)
  }

  /** The accumulator `acc`, of which the next bit is the lowest, starts with the codeword of `n`. */
  ghost predicate Matches(n: Node, acc: nat)
  {
    acc % Pow2(n.len) == Codeword(n)
  }

  ghost predicate Hit(code: Code, s: nat, acc: nat)
  {
    s in code && Matches(code[s], acc)
  }

  /** Reversing a word aligned to depth `len` gives a number of `len` bits. */
  lemma CodewordBound(n: Node)
    requires IsNode(n)
    ensures Codeword(n) < Pow2(n.len)
  {
    var k := 32 - n.len;
    AlignedMeaning(n.start, k);
    Pow2Values();
    var q, r := QuotRem(n.start, Pow2(k));
    ReverseJoin(0, q, k, n.len);
    ReverseBound(q, n.len);
    ReverseOfZero(k);
  }

  lemma {:induction false} ReverseOfZero(w: nat)
    ensures Reverse(0, w) == 0
  {
    if w > 0 {
      ReverseOfZero(w - 1);
    }
  }

  /** Matching the low bits of the accumulator is containing the reversed accumulator. */
  lemma MatchIsContainment(n: Node, acc: nat)
    requires IsNode(n) && acc < WORD
    ensures Matches(n, acc) <==> Contains(n, Reverse(acc, 32))
  {
    var k := 32 - n.len;
    var c := Codeword(n);
    CodewordBound(n);
    Pow2Values();
    ReverseInvolution(n.start, 32);
    var hi, lo := QuotRem(acc, Pow2(n.len));
    ReverseJoin(lo, hi, n.len, k);
    ReverseJoin(c, 0, n.len, k);
    ReverseOfZero(k);
    ReverseBound(hi, k);
    SameTop(Reverse(lo, n.len), Reverse(hi, k), Reverse(c, n.len), Pow2(k));
    ReverseInvolution(lo, n.len);
    ReverseInvolution(c, n.len);
  }

  lemma SameTop(a: nat, r: nat, b: nat, m: nat)
    requires r < m
    ensures a == b <==> b * m <= a * m + r < b * m + m
  {
    Distribute(a, b, m);
    Distribute(b, a, m);
    if a > b {
      AtLeast(a - b, m);
    } else if b > a {
      AtLeast(b - a, m);
    }
  }

  /** At most one codeword of a prefix code matches. */
  lemma HitUnique(code: Code, s: nat, t: nat, acc: nat)
    requires ValidCode(code) && acc < WORD && Hit(code, s, acc) && Hit(code, t, acc)
    ensures s == t
  {
    assert NodeOf(code, s) && NodeOf(code, t);
    MatchIsContainment(code[s], acc);
    MatchIsContainment(code[t], acc);
    assert s != t ==> Apart(code, s, t);
  }

  lemma StartUnique(code: Code, s: nat, t: nat)
    requires ValidCode(code) && s in code && t in code && code[s].start == code[t].start
    ensures s == t
  {
    assert s != t ==> Apart(code, s, t);
  }

  ghost predicate HitsSome(code: Code, acc: nat)
  {
    exists s :: Hit(code, s, acc)
  }

  /** Every word starts with a codeword. */
  ghost predicate CompleteCode(code: Code)
  {
    forall acc: nat :: acc < WORD ==> HitsSome(code, acc)
  }
}
