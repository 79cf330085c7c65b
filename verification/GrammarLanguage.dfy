/** The language of flat rules: the least one closed under them, by how deep the references go. */
module GrammarLanguage {
  import opened GrammarForm

  type Word = seq<nat>

  type Rules = seq<seq<Element>>

  predicate InRange(r: Range, c: nat)
  {
    match r case One(d) => c == d case Span(lo, hi) => lo <= c <= hi
  }

  predicate InRanges(ranges: Ranges, c: nat)
  {
    ranges.AndRange? && (InRanges(ranges.rest, c) || InRange(ranges.last, c))
  }

  predicate CharMatch(negated: bool, ranges: Ranges, w: Word)
  {
    |w| == 1 && InRanges(ranges, w[0]) == !negated
  }

  /** A class is one character: one that is named, or lies between two that are joined; all others when it is negated. */
  lemma {:induction false} ClassMatches(negated: bool, ranges: Ranges, w: Word)
    ensures CharMatch(negated, ranges, w) <==> |w| == 1 && (negated <==> !NamedIn(Listed(ranges), w[0]))
  {
    if |w| == 1 {
      InRangesListed(ranges, w[0]);
    }
  }

  /** The ranges from first to last, as pairs of bounds. */
  function Listed(ranges: Ranges): seq<(nat, nat)>
  {
    match ranges
    case NoRange => []
    case AndRange(rest, One(c)) => Listed(rest) + [(c, c)]
    case AndRange(rest, Span(lo, hi)) => Listed(rest) + [(lo, hi)]
  }

  predicate NamedIn(pairs: seq<(nat, nat)>, c: nat)
  {
    exists i :: 0 <= i < |pairs| && pairs[i].0 <= c <= pairs[i].1
  }

  lemma {:induction false} InRangesListed(ranges: Ranges, c: nat)
    ensures InRanges(ranges, c) <==> NamedIn(Listed(ranges), c)
  {
    if ranges.AndRange? {
      InRangesListed(ranges.rest, c);
      var pairs, rest := Listed(ranges), Listed(ranges.rest);
      var n := |rest|;
      assert pairs[n].0 <= c <= pairs[n].1 <==> InRange(ranges.last, c);
      assert forall i {:trigger pairs[i]} :: 0 <= i < n ==> pairs[i] == rest[i];
      if NamedIn(rest, c) {
        var i :| 0 <= i < |rest| && rest[i].0 <= c <= rest[i].1;
        assert pairs[i] == rest[i];
      }
    }
  }

  ghost predicate SymbolMatch(rules: Rules, n: nat, sym: Symbol, w: Word)
    decreases n, 0, sym
  {
    match sym
    case Chars(negated, ranges) => CharMatch(negated, ranges, w)
    case Ref(id) => n > 0 && RuleMatch(rules, n - 1, id, w)
  }

  ghost predicate SequenceMatch(rules: Rules, n: nat, syms: Symbols, w: Word)
    decreases n, 0, syms
  {
    match syms
    case Nothing => w == []
    case Then(init, sym) =>
      exists i {:trigger w[..i]} :: 0 <= i <= |w| && SequenceMatch(rules, n, init, w[..i]) && SymbolMatch(rules, n, sym, w[i..])
  }

  ghost predicate AlternativesMatch(rules: Rules, n: nat, alts: Alternatives, w: Word)
    decreases n, 1, alts
  {
    SequenceMatch(rules, n, alts.syms, w) || (alts.Or? && AlternativesMatch(rules, n, alts.before, w))
  }

  /** A rule that was never defined matches nothing. */
  ghost predicate RuleMatch(rules: Rules, n: nat, id: nat, w: Word)
    decreases n, 2
  {
    id < |rules| && rules[id] != [] && AlternativesMatch(rules, n, Decode(rules[id]), w)
  }

  /** The word is derived from the rule. */
  ghost predicate Derives(rules: Rules, id: nat, w: Word)
  {
    exists n: nat :: RuleMatch(rules, n, id, w)
  }

  // ----- deeper is more -----

  lemma {:induction false} SymbolDeeper(rules: Rules, n: nat, m: nat, sym: Symbol, w: Word)
    requires n <= m && SymbolMatch(rules, n, sym, w)
    ensures SymbolMatch(rules, m, sym, w)
    decreases n, 0, sym
  {
    if sym.Ref? {
      RuleDeeper(rules, n - 1, m - 1, sym.id, w);
    }
  }

  lemma {:induction false} SequenceDeeper(rules: Rules, n: nat, m: nat, syms: Symbols, w: Word)
    requires n <= m && SequenceMatch(rules, n, syms, w)
    ensures SequenceMatch(rules, m, syms, w)
    decreases n, 0, syms
  {
    hide SymbolMatch;
    if syms.Then? {
      var i :| 0 <= i <= |w| && SequenceMatch(rules, n, syms.init, w[..i]) && SymbolMatch(rules, n, syms.last, w[i..]);
      SequenceDeeper(rules, n, m, syms.init, w[..i]);
      SymbolDeeper(rules, n, m, syms.last, w[i..]);
    }
  }

  lemma {:induction false} AlternativesDeeper(rules: Rules, n: nat, m: nat, alts: Alternatives, w: Word)
    requires n <= m && AlternativesMatch(rules, n, alts, w)
    ensures AlternativesMatch(rules, m, alts, w)
    decreases n, 1, alts
  {
    hide SequenceMatch;
    if SequenceMatch(rules, n, alts.syms, w) {
      SequenceDeeper(rules, n, m, alts.syms, w);
    } else {
      AlternativesDeeper(rules, n, m, alts.before, w);
    }
  }

  lemma {:induction false} RuleDeeper(rules: Rules, n: nat, m: nat, id: nat, w: Word)
    requires n <= m && RuleMatch(rules, n, id, w)
    ensures RuleMatch(rules, m, id, w)
    decreases n, 2
  {
    hide AlternativesMatch;
    AlternativesDeeper(rules, n, m, Decode(rules[id]), w);
  }

  // ----- sequences -----

  lemma NothingMatch(rules: Rules, n: nat)
    ensures SequenceMatch(rules, n, Nothing, [])
  {}

  lemma OneSymbol(rules: Rules, n: nat, sym: Symbol, w: Word)
    ensures SequenceMatch(rules, n, Then(Nothing, sym), w) <==> SymbolMatch(rules, n, sym, w)
  {
    hide SymbolMatch;
    assert w[..0] == [] && w[0..] == w;
  }

  lemma ThenMatch(rules: Rules, n: nat, init: Symbols, sym: Symbol, v: Word, w: Word)
    requires SequenceMatch(rules, n, init, v) && SymbolMatch(rules, n, sym, w)
    ensures SequenceMatch(rules, n, Then(init, sym), v + w)
  {
    hide SymbolMatch;
    assert (v + w)[..|v|] == v && (v + w)[|v|..] == w;
  }

  lemma {:induction false} ConcatMatch(rules: Rules, n: nat, a: Symbols, b: Symbols, v: Word, w: Word)
    requires SequenceMatch(rules, n, a, v) && SequenceMatch(rules, n, b, w)
    ensures SequenceMatch(rules, n, Concat(a, b), v + w)
    decreases b
  {
    hide SymbolMatch;
    if b.Then? {
      var i :| 0 <= i <= |w| && SequenceMatch(rules, n, b.init, w[..i]) && SymbolMatch(rules, n, b.last, w[i..]);
      ConcatMatch(rules, n, a, b.init, v, w[..i]);
      ThenMatch(rules, n, Concat(a, b.init), b.last, v + w[..i], w[i..]);
      assert v + w[..i] + w[i..] == v + w;
    } else {
      assert v + w == v;
    }
  }

  lemma {:induction false} SplitMatch(rules: Rules, n: nat, a: Symbols, b: Symbols, w: Word) returns (i: nat)
    requires SequenceMatch(rules, n, Concat(a, b), w)
    ensures i <= |w| && SequenceMatch(rules, n, a, w[..i]) && SequenceMatch(rules, n, b, w[i..])
    decreases b
  {
    hide SymbolMatch;
    if b.Then? {
      var j :| 0 <= j <= |w| && SequenceMatch(rules, n, Concat(a, b.init), w[..j]) && SymbolMatch(rules, n, b.last, w[j..]);
      i := SplitMatch(rules, n, a, b.init, w[..j]);
      ThenMatch(rules, n, b.init, b.last, w[..j][i..], w[j..]);
      assert w[..j][..i] == w[..i] && w[..j][i..] + w[j..] == w[i..];
    } else {
      i := |w|;
      assert w[..i] == w;
    }
  }
}
