/** The flat encoding of grammar rules, and the symbols that it stands for. */
module GrammarForm {

  datatype Kind = END | ALT | RULE_REF | CHAR | CHAR_NOT | CHAR_RNG_UPPER | CHAR_ALT

  datatype Element = Element(kind: Kind, value: nat)

  datatype Range = One(c: nat) | Span(lo: nat, hi: nat)

  /** Lists that grow at their right end, as the parser builds them. */
  datatype Ranges = NoRange | AndRange(rest: Ranges, last: Range)

  /** A symbol of a rule: a set of characters, or a reference to a rule. */
  datatype Symbol = Chars(negated: bool, ranges: Ranges) | Ref(id: nat)

  datatype Symbols = Nothing | Then(init: Symbols, last: Symbol)

  datatype Alternatives = Only(syms: Symbols) | Or(before: Alternatives, syms: Symbols)

  // ----- encoding -----

  function RangeElements(kind: Kind, r: Range): seq<Element>
  {
    match r
    case One(c) => [Element(kind, c)]
    case Span(lo, hi) => [Element(kind, lo), Element(CHAR_RNG_UPPER, hi)]
  }

  function StartKind(negated: bool): Kind
  {
    if negated then CHAR_NOT else CHAR
  }

  function ClassElements(negated: bool, ranges: Ranges): seq<Element>
  {
    match ranges
    case NoRange => []
    case AndRange(rest, r) => ClassElements(negated, rest) + RangeElements(if rest.NoRange? then StartKind(negated) else CHAR_ALT, r)
  }

  function SymbolElements(sym: Symbol): seq<Element>
  {
    match sym
    case Chars(negated, ranges) => ClassElements(negated, ranges)
    case Ref(id) => [Element(RULE_REF, id)]
  }

  function SequenceElements(syms: Symbols): seq<Element>
  {
    match syms
    case Nothing => []
    case Then(init, sym) => SequenceElements(init) + SymbolElements(sym)
  }

  function AlternativeElements(alts: Alternatives): seq<Element>
  {
    match alts
    case Only(syms) => SequenceElements(syms)
    case Or(before, syms) => AlternativeElements(before) + [Element(ALT, 0)] + SequenceElements(syms)
  }

  function RuleElements(alts: Alternatives): seq<Element>
  {
    AlternativeElements(alts) + [Element(END, 0)]
  }

  function Concat(a: Symbols, b: Symbols): Symbols
  {
    match b
    case Nothing => a
    case Then(init, sym) => Then(Concat(a, init), sym)
  }

  lemma {:induction false} ConcatElements(a: Symbols, b: Symbols)
    ensures SequenceElements(Concat(a, b)) == SequenceElements(a) + SequenceElements(b)
  {
    if b.Then? {
      ConcatElements(a, b.init);
      hide SymbolElements;
    }
  }

  // ----- decoding -----

  /** Adds a symbol to the last alternative. */
  function AddSymbol(alts: Alternatives, sym: Symbol): Alternatives
  {
    alts.(syms := Then(alts.syms, sym))
  }

  /** An upper bound turns the last character of a set into a span. */
  function Widen(ranges: Ranges, hi: nat): Ranges
  {
    if ranges.AndRange? && ranges.last.One? then AndRange(ranges.rest, Span(ranges.last.c, hi)) else ranges
  }

  /** Reads one more element: modifiers apply to the character set before them, if there is one. */
  function Take(alts: Alternatives, e: Element): Alternatives
  {
    match e.kind
    case END => alts
    case ALT => Or(alts, Nothing)
    case RULE_REF => AddSymbol(alts, Ref(e.value))
    case CHAR => AddSymbol(alts, Chars(false, AndRange(NoRange, One(e.value))))
    case CHAR_NOT => AddSymbol(alts, Chars(true, AndRange(NoRange, One(e.value))))
    case CHAR_ALT =>
      if alts.syms.Then? && alts.syms.last.Chars? then
        alts.(syms := alts.syms.(last := alts.syms.last.(ranges := AndRange(alts.syms.last.ranges, One(e.value)))))
      else alts
    case CHAR_RNG_UPPER =>
      if alts.syms.Then? && alts.syms.last.Chars? then
        alts.(syms := alts.syms.(last := alts.syms.last.(ranges := Widen(alts.syms.last.ranges, e.value))))
      else alts
  }

  /** The alternatives that a list of elements stands for. */
  function Decode(es: seq<Element>): Alternatives
  {
    if es == [] then Only(Nothing) else Take(Decode(es[..|es| - 1]), es[|es| - 1])
  }

  lemma DecodeNext(es: seq<Element>, e: Element)
    ensures Decode(es + [e]) == Take(Decode(es), e)
  {
    assert (es + [e])[..|es|] == es;
  }

  lemma DecodeTwo(es: seq<Element>, e: Element, f: Element)
    ensures Decode(es + [e, f]) == Take(Take(Decode(es), e), f)
  {
    hide Decode, Take;
    DecodeNext(es, e);
    DecodeNext(es + [e], f);
    assert es + [e] + [f] == es + [e, f];
  }

  /** Decoding the first range of a set, or one more of them. */
  lemma DecodeRange(es: seq<Element>, alts: Alternatives, negated: bool, ranges: Ranges, r: Range)
    requires Decode(es) == if ranges.NoRange? then alts else AddSymbol(alts, Chars(negated, ranges))
    ensures Decode(es + RangeElements(if ranges.NoRange? then StartKind(negated) else CHAR_ALT, r)) ==
      AddSymbol(alts, Chars(negated, AndRange(ranges, r)))
  {
    hide Decode;
    var kind := if ranges.NoRange? then StartKind(negated) else CHAR_ALT;
    match r
    case One(c) => DecodeNext(es, Element(kind, c));
    case Span(lo, hi) => DecodeTwo(es, Element(kind, lo), Element(CHAR_RNG_UPPER, hi));
  }

  lemma Regroup(es: seq<Element>, a: seq<Element>, b: seq<Element>)
    ensures es + (a + b) == es + a + b
  {}

  lemma {:induction false} DecodeClass(es: seq<Element>, negated: bool, ranges: Ranges)
    requires ranges.AndRange?
    ensures Decode(es + ClassElements(negated, ranges)) == AddSymbol(Decode(es), Chars(negated, ranges))
  {
    hide Decode, AddSymbol, RangeElements;
    var rest := ranges.rest;
    var a, b := ClassElements(negated, rest), RangeElements(if rest.NoRange? then StartKind(negated) else CHAR_ALT, ranges.last);
    Regroup(es, a, b);
    if rest.NoRange? {
      assert es + a == es;
    } else {
      DecodeClass(es, negated, rest);
    }
    DecodeRange(es + a, Decode(es), negated, rest, ranges.last);
  }

  /** Every set of characters names at least one. */
  predicate NonEmpty(sym: Symbol)
  {
    sym.Chars? ==> sym.ranges.AndRange?
  }

  predicate AllNonEmpty(syms: Symbols)
  {
    syms.Then? ==> AllNonEmpty(syms.init) && NonEmpty(syms.last)
  }

  predicate WellFormed(alts: Alternatives)
  {
    AllNonEmpty(alts.syms) && (alts.Or? ==> WellFormed(alts.before))
  }

  function AddSymbols(alts: Alternatives, syms: Symbols): Alternatives
  {
    alts.(syms := Concat(alts.syms, syms))
  }

  lemma DecodeSymbol(es: seq<Element>, sym: Symbol)
    requires NonEmpty(sym)
    ensures Decode(es + SymbolElements(sym)) == AddSymbol(Decode(es), sym)
  {
    hide Decode;
    match sym
    case Chars(negated, ranges) => DecodeClass(es, negated, ranges);
    case Ref(id) => DecodeNext(es, Element(RULE_REF, id));
  }

  lemma {:induction false} DecodeSequence(es: seq<Element>, syms: Symbols)
    requires AllNonEmpty(syms)
    ensures Decode(es + SequenceElements(syms)) == AddSymbols(Decode(es), syms)
  {
    hide Decode, SymbolElements;
    match syms
    case Nothing => assert es + [] == es;
    case Then(init, sym) =>
      DecodeSequence(es, init);
      DecodeSymbol(es + SequenceElements(init), sym);
      Regroup(es, SequenceElements(init), SymbolElements(sym));
  }

  lemma {:induction false} ConcatNothing(syms: Symbols)
    ensures Concat(Nothing, syms) == syms
  {
    if syms.Then? {
      ConcatNothing(syms.init);
    }
  }

  lemma {:induction false} DecodeAlternatives(alts: Alternatives)
    requires WellFormed(alts)
    ensures Decode(AlternativeElements(alts)) == alts
  {
    ConcatNothing(alts.syms);
    match alts
    case Only(syms) =>
      DecodeSequence([], syms);
      assert [] + SequenceElements(syms) == SequenceElements(syms);
    case Or(before, syms) =>
      DecodeAlternatives(before);
      var es := AlternativeElements(before);
      hide Decode, SequenceElements;
      DecodeNext(es, Element(ALT, 0));
      DecodeSequence(es + [Element(ALT, 0)], syms);
  }

  /** The encoding loses nothing. */
  lemma DecodeRule(alts: Alternatives)
    requires WellFormed(alts)
    ensures Decode(RuleElements(alts)) == alts
  {
    DecodeAlternatives(alts);
    DecodeNext(AlternativeElements(alts), Element(END, 0));
  }
}
