/** The parts of a sequence that need no symbol table, and the bookkeeping of a sequence under construction. */
module GrammarPieces {
  import opened GrammarText
  import opened GrammarForm
  import opened GrammarLanguage
  import opened GrammarMeaning
  import opened GrammarReading
  import opened GrammarSpelling
  import opened GrammarState

  lemma LiteralMore(chars: Word, c: nat)
    ensures SequenceElements(LiteralSymbols(chars + [c])) == SequenceElements(LiteralSymbols(chars)) + [Element(CHAR, c)]
  {
    assert (chars + [c])[..|chars|] == chars;
    assert ClassElements(false, AndRange(NoRange, One(c))) == [Element(CHAR, c)];
    hide ClassElements;
  }

  /** The inside of a literal. */
  method ParseLiteral(src: string, start: nat, outElements: seq<Element>)
    returns (ok: bool, pos: nat, out: seq<Element>, ghost chars: Word)
    requires start <= |src|
    ensures ok ==> start <= pos < |src| && At(src, pos) == '"' && CharsSpelled(src, start, pos, chars)
    ensures ok ==> out == outElements + SequenceElements(LiteralSymbols(chars))
    ensures ReadChars(src, start, []) == if ok then Got(chars, pos) else Refused
  {
    assert CharsSpelled(src, start, start, []) && SequenceElements(LiteralSymbols([])) == [];
    hide ReadChar, CharsSpelled, SequenceElements, LiteralSymbols;
    pos, out, chars := start, outElements, [];
    while At(src, pos) != '"'
      invariant start <= pos <= |src| && CharsSpelled(src, start, pos, chars)
      invariant out == outElements + SequenceElements(LiteralSymbols(chars))
      invariant ReadChars(src, start, []) == ReadChars(src, pos, chars)
      decreases |src| - pos
    {
      var r := ParseChar(src, pos);
      if r.Unreadable? {
        return false, pos, out, chars;
      }
      MoreChars(src, start, pos, r.next, chars, r.value);
      LiteralMore(chars, r.value);
      pos := r.next;
      out := out + [Element(CHAR, r.value)];
      chars := chars + [r.value];
    }
    ok := true;
  }

  /** One character or span of a class. */
  method ParseRange(src: string, start: nat, kind: Kind, outElements: seq<Element>)
    returns (ok: bool, pos: nat, out: seq<Element>, ghost r: Range)
    requires start <= |src|
    ensures ok ==> start < pos <= |src| && RangeSpelled(src, start, pos, r) && out == outElements + RangeElements(kind, r)
    ensures ReadRange(src, start) == if ok then Got(r, pos) else Refused
  {
    hide ReadChar;
    out, pos, r := outElements, start, One(0);
    var c := ParseChar(src, pos);
    if c.Unreadable? {
      return false, pos, out, r;
    }
    pos := c.next;
    out := out + [Element(kind, c.value)];
    r := One(c.value);
    if At(src, pos) == '-' && At(src, pos + 1) != ']' {
      var endchar := ParseChar(src, pos + 1);
      if endchar.Unreadable? {
        return false, pos, out, r;
      }
      pos := endchar.next;
      out := out + [Element(CHAR_RNG_UPPER, endchar.value)];
      r := Span(c.value, endchar.value);
    }
    ok := true;
  }

  /** The inside of a class. */
  method ParseClass(src: string, start: nat, negated: bool, outElements: seq<Element>)
    returns (ok: bool, pos: nat, out: seq<Element>, ghost ranges: Ranges)
    requires start <= |src|
    ensures ok ==> start <= pos < |src| && At(src, pos) == ']' && RangesSpelled(src, start, pos, ranges)
    ensures ok ==> out == outElements + ClassElements(negated, ranges)
    ensures ReadRanges(src, start, NoRange) == if ok then Got(ranges, pos) else Refused
  {
    assert RangesSpelled(src, start, start, NoRange);
    hide ReadChar, RangeSpelled, RangesSpelled, RangeElements, ReadRange;
    pos, out, ranges := start, outElements, NoRange;
    while At(src, pos) != ']'
      invariant start <= pos <= |src| && RangesSpelled(src, start, pos, ranges)
      invariant out == outElements + ClassElements(negated, ranges)
      invariant ranges.NoRange? <==> |out| == |outElements|
      invariant ReadRanges(src, start, NoRange) == ReadRanges(src, pos, ranges)
      decreases |src| - pos
    {
      var kind := if |outElements| < |out| then CHAR_ALT else StartKind(negated);
      var more, next;
      ghost var r;
      ghost var before := out;
      more, next, out, r := ParseRange(src, pos, kind, out);
      if !more {
        return false, pos, out, ranges;
      }
      MoreRanges(src, start, pos, next, ranges, r);
      Regroup(outElements, ClassElements(negated, ranges), RangeElements(kind, r));
      RangeNotEmpty(kind, r);
      ranges := AndRange(ranges, r);
      pos := next;
    }
    ok := true;
  }

  lemma RangeNotEmpty(kind: Kind, r: Range)
    ensures RangeElements(kind, r) != []
  {}

  lemma ClassSymbols(ids: Ids, negated: bool, ranges: Ranges)
    ensures SequenceElements(ItemSymbols(ids, Class(negated, ranges))) == ClassElements(negated, ranges)
  {}

  /** An item emits elements exactly when its form says so. */
  lemma EmitsElements(rules: Rules, ids: Ids, item: Item)
    requires ItemBuilt(rules, ids, item)
    ensures SequenceElements(ItemSymbols(ids, item)) != [] <==> Emits(item)
  {
    match item
    case Literal(chars) =>
      if chars != [] {
        LiteralMore(chars[..|chars| - 1], chars[|chars| - 1]);
        assert chars[..|chars| - 1] + [chars[|chars| - 1]] == chars;
      }
    case Class(negated, ranges) =>
      ClassSymbols(ids, negated, ranges);
      if ranges.AndRange? {
        RangeNotEmpty(if ranges.rest.NoRange? then StartKind(negated) else CHAR_ALT, ranges.last);
      }
    case _ =>
  }

  lemma OneSymbolElements(id: nat)
    ensures SequenceElements(Then(Nothing, Ref(id))) == [Element(RULE_REF, id)]
  {}

  // ----- a sequence under construction -----

  function Front(items: Items): Items
  {
    if items.AndItem? then items.init else NoItem
  }

  /** The elements of the items, of which those from `last` on belong to the last item. */
  ghost predicate Under(ids: Ids, items: Items, before: seq<Element>, out: seq<Element>, last: nat)
  {
    && out == before + SequenceElements(ItemsSymbols(ids, items))
    && last <= |out| && out[..last] == before + SequenceElements(ItemsSymbols(ids, Front(items)))
    && (items.NoItem? ==> last == |out|)
    && (items.AndItem? ==> out[last..] == SequenceElements(ItemSymbols(ids, items.last)))
  }

  lemma UnderNothing(ids: Ids, before: seq<Element>)
    ensures Under(ids, NoItem, before, before, |before|)
  {
    assert before + [] == before;
    assert before[..|before|] == before;
  }

  lemma UnderMore(ids: Ids, items: Items, before: seq<Element>, out: seq<Element>, item: Item)
    requires out == before + SequenceElements(ItemsSymbols(ids, items))
    ensures Under(ids, AndItem(items, item), before, out + SequenceElements(ItemSymbols(ids, item)), |out|)
  {
    hide SequenceElements, ItemSymbols;
    var es := SequenceElements(ItemSymbols(ids, item));
    ConcatElements(ItemsSymbols(ids, items), ItemSymbols(ids, item));
    Regroup(before, SequenceElements(ItemsSymbols(ids, items)), es);
    assert (out + es)[..|out|] == out;
  }

  lemma UnderOut(ids: Ids, items: Items, before: seq<Element>, out: seq<Element>, last: nat)
    requires Under(ids, items, before, out, last)
    ensures out == before + SequenceElements(ItemsSymbols(ids, items))
    ensures last <= |out| && out[..last] == before + SequenceElements(ItemsSymbols(ids, Front(items)))
    ensures items.AndItem? ==> out[last..] == SequenceElements(ItemSymbols(ids, items.last))
    ensures last < |out| ==> items.AndItem?
  {}

  // ----- the rules made for repetitions -----

  /** What the compiler writes for a repetition, element by element. */
  function RepeatElements(op: Repetition, es: seq<Element>, id: nat): seq<Element>
  {
    var rule := if op == Optional then es else es + [Element(RULE_REF, id)];
    rule + [Element(ALT, 0)] + (if op == Plus then es else []) + [Element(END, 0)]
  }

  lemma RepeatElementsForm(op: Repetition, syms: Symbols, id: nat)
    ensures RepeatElements(op, SequenceElements(syms), id) == RuleElements(RepeatForm(op, syms, id))
  {
    assert SequenceElements(Then(syms, Ref(id))) == SequenceElements(syms) + [Element(RULE_REF, id)];
    assert SequenceElements(Nothing) == [];
    hide SequenceElements;
    match op
    case Star => RuleOfTwo(Then(syms, Ref(id)), Nothing);
    case Plus => RuleOfTwo(Then(syms, Ref(id)), syms);
    case Optional => RuleOfTwo(syms, Nothing);
  }

  lemma RuleOfTwo(a: Symbols, b: Symbols)
    ensures RuleElements(Or(Only(a), b)) == SequenceElements(a) + [Element(ALT, 0)] + SequenceElements(b) + [Element(END, 0)]
  {
    assert AlternativeElements(Only(a)) == SequenceElements(a);
  }

  // ----- the invariant of a sequence -----

  /** From `start` to `pos` the text spells the items, whose rules are made and whose elements are out. */
  ghost predicate Progress(
    src: string, start: nat, nested: bool, before: seq<Element>,
    ids: Ids, rules: Rules, pos: nat, items: Items, out: seq<Element>, last: nat)
  {
    ItemsSpelled(src, start, pos, items, nested) && ItemsBuilt(rules, ids, items) && Under(ids, items, before, out, last)
  }

  lemma ProgressBegins(src: string, start: nat, nested: bool, before: seq<Element>, ids: Ids, rules: Rules)
    ensures Progress(src, start, nested, before, ids, rules, start, NoItem, before, |before|)
  {
    UnderNothing(ids, before);
  }

  lemma ProgressItem(
    src: string, start: nat, nested: bool, before: seq<Element>,
    ids: Ids, rules: Rules, pos: nat, items: Items, out: seq<Element>, last: nat,
    ids': Ids, rules': Rules, pos': nat, item: Item)
    requires Progress(src, start, nested, before, ids, rules, pos, items, out, last)
    requires KeepsMade(ids, rules, ids', rules') && ItemBuilt(rules', ids', item) && ItemSpelled(src, pos, pos', item, nested)
    ensures Progress(src, start, nested, before, ids', rules', pos', AndItem(items, item),
      out + SequenceElements(ItemSymbols(ids', item)), |out|)
  {
    UnderOut(ids, items, before, out, last);
    hide KeepsMade, ItemBuilt, ItemSpelled, ItemsSpelled, Under, ItemSymbols, SequenceElements;
    ItemsStay(ids, rules, ids', rules', items);
    MoreItems(src, start, pos, pos', items, item, nested);
    UnderMore(ids', items, before, out, item);
  }

  lemma ProgressRepeat(
    src: string, start: nat, nested: bool, before: seq<Element>,
    ids: Ids, rules: Rules, pos: nat, items: Items, out: seq<Element>, last: nat,
    ids': Ids, rules': Rules, op: Repetition, id: nat)
    requires Progress(src, start, nested, before, ids, rules, pos, items, out, last) && last < |out|
    requires KeepsMade(ids, rules, ids', rules') && IsMade(ids', id) && At(src, pos) == Sign(op) && items.AndItem?
    requires HasRule(rules', id, RepeatForm(op, ItemSymbols(ids, items.last), id))
    ensures Progress(src, start, nested, before, ids', rules', Space(src, pos + 1, nested),
      AndItem(items.init, Repeat(items.last, op, id)), out[..last] + [Element(RULE_REF, id)], last)
  {
    UnderOut(ids, items, before, out, last);
    var item := Repeat(items.last, op, id);
    hide KeepsMade, ItemSpelled, ItemsSpelled, Under, SequenceElements, HasRule, IsMade;
    ItemsStay(ids, rules, ids', rules', items.init);
    ItemStays(ids, rules, ids', rules', items.last);
    RepeatLast(src, start, pos, items.init, items.last, op, id, nested);
    OneSymbolElements(id);
    assert |out[..last]| == last && ItemSymbols(ids', item) == Then(Nothing, Ref(id)) && Front(items) == items.init;
    UnderMore(ids', items.init, before, out[..last], item);
    assert ItemBuilt(rules', ids', item);
    assert ItemsBuilt(rules', ids', AndItem(items.init, item));
    assert ItemsSpelled(src, start, Space(src, pos + 1, nested), AndItem(items.init, item), nested);
  }

  lemma ProgressLast(
    src: string, start: nat, nested: bool, before: seq<Element>,
    ids: Ids, rules: Rules, pos: nat, items: Items, out: seq<Element>, last: nat)
    requires Progress(src, start, nested, before, ids, rules, pos, items, out, last) && last < |out|
    ensures items.AndItem? && out[last..] == SequenceElements(ItemSymbols(ids, items.last))
    ensures ItemBuilt(rules, ids, items.last) && Emits(items.last)
  {
    UnderOut(ids, items, before, out, last);
    EmitsElements(rules, ids, items.last);
    hide SequenceElements, ItemSymbols, Emits, ItemBuilt;
  }

  lemma ProgressDone(
    src: string, start: nat, nested: bool, before: seq<Element>,
    ids: Ids, rules: Rules, pos: nat, items: Items, out: seq<Element>, last: nat)
    requires Progress(src, start, nested, before, ids, rules, pos, items, out, last)
    ensures ItemsSpelled(src, start, pos, items, nested) && ItemsBuilt(rules, ids, items)
    ensures out == before + SequenceElements(ItemsSymbols(ids, items)) && last <= |out|
  {}
}
