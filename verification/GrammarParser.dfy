/** The recursive-descent compiler: one pass over the text, rules stored as they are completed. */
module GrammarParser {
  import opened GrammarText
  import opened GrammarForm
  import opened GrammarLanguage
  import opened GrammarMeaning
  import opened GrammarReading
  import opened GrammarSpelling
  import opened GrammarState
  import opened GrammarPieces

  class ParseState {
    var symbolIds: Ids
    var rules: Rules

    constructor ()
      ensures symbolIds == map[] && rules == []
    {
      symbolIds, rules := map[], [];
    }

    ghost predicate Valid()
      reads this
    {
      ValidState(symbolIds, rules)
    }

    /** The number of a name, a new one if it was not seen before. */
    method GetSymbolId(name: string) returns (id: nat)
      requires Valid() && '_' !in name
      modifies this`symbolIds
      ensures Valid() && name in symbolIds && id == symbolIds[name] && id < |symbolIds|
      ensures symbolIds == if name in old(symbolIds) then old(symbolIds) else old(symbolIds)[name := |old(symbolIds)|]
      ensures Grows(old(symbolIds), rules, symbolIds, rules) && Extends(old(symbolIds), symbolIds)
    {
      var nextId := |symbolIds|;
      assert name in symbolIds ==> symbolIds[name] < nextId;
      hide ValidIds, IsRule, IsMadeName;
      if name in symbolIds {
        id := symbolIds[name];
        return;
      }
      AddId(symbolIds, name);
      StateWithIds(symbolIds, rules, symbolIds[name := nextId]);
      symbolIds := symbolIds[name := nextId];
      id := nextId;
    }

    /** A number for a rule that the source has no name for. */
    method GenerateSymbolId(baseName: string) returns (id: nat)
      requires Valid() && '_' !in baseName
      modifies this`symbolIds
      ensures Valid() && OneMade(old(symbolIds), symbolIds, id) && RuleAt(rules, id) == []
    {
      hide ValidIds, IsRule, IsMadeName, MadeName;
      id := |symbolIds|;
      var name := MadeName(baseName, id);
      MadeNameFresh(symbolIds, baseName);
      AddId(symbolIds, name);
      StateWithIds(symbolIds, rules, symbolIds[name := id]);
      symbolIds := symbolIds[name := id];
      assert symbolIds[name] == id;
    }

    method AddRule(ruleId: nat, rule: seq<Element>)
      modifies this`rules
      ensures rules == WithRule(old(rules), ruleId, rule)
    {
      if |rules| <= ruleId {
        rules := rules + seq(ruleId + 1 - |rules|, _ => []);
      }
      rules := rules[ruleId := rule];
    }

    /** A reference to a named rule. */
    method ParseReference(src: string, start: nat, nested: bool) returns (id: nat, pos: nat, ghost item: Item)
      requires Valid() && start < |src| && IsWordChar(At(src, start))
      modifies this`symbolIds
      ensures Valid() && Grows(old(symbolIds), rules, symbolIds, rules)
      ensures start < pos <= |src| && ItemSpelled(src, start, pos, item, nested) && ItemBuilt(rules, symbolIds, item)
      ensures ItemSymbols(symbolIds, item) == Then(Nothing, Ref(id)) && ReadItem(src, start, nested) == Got(PlainItem(item), pos)
    {
      hide ValidState, Grows;
      var ok, nameEnd := ParseName(src, start);
      NameIsPlain(src, start);
      var name := src[start..nameEnd];
      id := GetSymbolId(name);
      pos := ParseSpace(src, nameEnd, nested);
      item := Name(name);
    }

    /** A repetition sign: moves the last item into a rule of its own. */
    method ParseRepetition(
      src: string, start: nat, nested: bool, ruleName: string, pos0: nat, op: Repetition,
      ghost before: seq<Element>, ghost items0: Items, out0: seq<Element>, last: nat)
      returns (pos: nat, out: seq<Element>, ghost items: Items)
      requires Valid() && '_' !in ruleName && pos0 < |src| && At(src, pos0) == Sign(op)
      requires last < |out0| && Progress(src, start, nested, before, symbolIds, rules, pos0, items0, out0, last)
      modifies this
      ensures Valid() && Grows(old(symbolIds), old(rules), symbolIds, rules)
      ensures pos0 < pos <= |src| && Progress(src, start, nested, before, symbolIds, rules, pos, items, out, last)
      ensures ReadItems(src, pos0, nested, PlainItems(items0)) == ReadItems(src, pos, nested, PlainItems(items))
    {
      hide ValidState, Grows, Progress, OneMade, ReadItems, WithRule, RuleAt, RepeatForm, Extends, KeepsMade, HasRule, ItemSymbols, SequenceElements, ItemBuilt;
      ghost var ids0, rules0 := symbolIds, rules;
      ProgressLast(src, start, nested, before, ids0, rules0, pos0, items0, out0, last);
      var id := GenerateSymbolId(ruleName);
      var subRule := out0[last..];
      if op == Star || op == Plus {
        subRule := subRule + [Element(RULE_REF, id)];
      }
      subRule := subRule + [Element(ALT, 0)];
      if op == Plus {
        subRule := subRule + out0[last..];
      }
      subRule := subRule + [Element(END, 0)];
      RepeatRuleReady(op, ids0, rules0, symbolIds, items0.last, id, out0[last..], subRule);
      AddRule(id, subRule);
      RepeatRuleStored(ids0, rules0, symbolIds, id, op, items0.last);
      SignRead(src, pos0, nested, items0, op, id);
      ProgressRepeat(src, start, nested, before, ids0, rules0, pos0, items0, out0, last, symbolIds, rules, op, id);
      out := out0[..last] + [Element(RULE_REF, id)];
      pos := ParseSpace(src, pos0 + 1, nested);
      items := AndItem(items0.init, Repeat(items0.last, op, id));
    }

    /** A group: its alternatives become a rule of their own. */
    method ParseGroup(src: string, start: nat, nested: bool, ruleName: string) returns (ok: bool, pos: nat, id: nat, ghost item: Item)
      requires Valid() && '_' !in ruleName && start < |src| && At(src, start) == '('
      modifies this
      ensures ok ==> Valid() && Grows(old(symbolIds), old(rules), symbolIds, rules)
      ensures ok ==> start < pos <= |src| && ItemSpelled(src, start, pos, item, nested) && ItemBuilt(rules, symbolIds, item)
      ensures ok ==> ItemSymbols(symbolIds, item) == Then(Nothing, Ref(id))
      ensures ReadItem(src, start, nested) == if ok then Got(PlainItem(item), pos) else Refused
      decreases |src| - start, 0
    {
      hide ReadItem, IsMade, ValidState, Grows, GrowsBut, OneMade, ReadAlts, RuleAt, AltsForm, AltsSpelled, AltsBuilt, HasRule, Extends, EndsSequence;
      ghost var ids0, rules0 := symbolIds, rules;
      GroupReads(src, start, nested);
      pos := ParseSpace(src, start + 1, true);
      id := GenerateSymbolId(ruleName);
      OneMadeIs(ids0, symbolIds, id);
      ghost var ids1, alts := symbolIds, OneAlt(NoItem);
      ok, pos, alts := ParseAlternates(src, pos, ruleName, id, true);
      item := Group(alts, id);
      if !ok {
        return;
      }
      if At(src, pos) != ')' {
        ok := false;
        return;
      }
      GroupGrows(ids0, rules0, ids1, symbolIds, rules, id, AltsForm(symbolIds, alts));
      pos := ParseSpace(src, pos + 1, nested);
    }

    /** Items up to something that cannot start or modify one. */
    method ParseSequence(src: string, start: nat, ruleName: string, outElements: seq<Element>, nested: bool)
      returns (ok: bool, pos: nat, out: seq<Element>, ghost items: Items)
      requires Valid() && '_' !in ruleName && start <= |src|
      modifies this
      ensures ok ==> Valid() && Grows(old(symbolIds), old(rules), symbolIds, rules)
      ensures ok ==> start <= pos <= |src| && ItemsSpelled(src, start, pos, items, nested) && EndsSequence(At(src, pos))
      ensures ok ==> ItemsBuilt(rules, symbolIds, items)
      ensures ok ==> out == outElements + SequenceElements(ItemsSymbols(symbolIds, items))
      ensures ReadItems(src, start, nested, NoItem) == if ok then Got(PlainItems(items), pos) else Refused
      decreases |src| - start, 2
    {
      hide ReadItem, ReadItems, ValidState, Grows, Progress, KeepsMade, ItemSpelled, ItemsSpelled, ItemBuilt, ItemsBuilt, ItemSymbols, SequenceElements, IsWordChar;
      ghost var ids0, rules0 := symbolIds, rules;
      pos, out, items := start, outElements, NoItem;
      var last: nat := |out|;
      ProgressBegins(src, start, nested, outElements, ids0, rules0);
      SameGrows(ids0, rules0);
      while !EndsSequence(At(src, pos))
        invariant Valid() && Grows(ids0, rules0, symbolIds, rules) && start <= pos <= |src|
        invariant Progress(src, start, nested, outElements, symbolIds, rules, pos, items, out, last)
        invariant ReadItems(src, start, nested, NoItem) == ReadItems(src, pos, nested, PlainItems(items))
        decreases |src| - pos
      {
        ghost var ids1, rules1 := symbolIds, rules;
        ghost var item;
        ZeroEnds(src, pos);
        var c := At(src, pos);
        if c == '*' || c == '+' || c == '?' {
          ProgressDone(src, start, nested, outElements, ids1, rules1, pos, items, out, last);
          if last == |out| {
            SignRefused(src, start, nested, outElements, ids1, rules1, pos, items, out, last);
            return false, pos, out, items;
          }
          var op := if c == '*' then Star else if c == '+' then Plus else Optional;
          pos, out, items := ParseRepetition(src, start, nested, ruleName, pos, op, outElements, items, out, last);
        } else {
          var next, es;
          ok, next, es, item := ParseItem(src, pos, ruleName, out, nested);
          ItemStep(src, pos, nested, PlainItems(items));
          if !ok {
            return;
          }
          GrowthKeeps(ids1, rules1, symbolIds, rules);
          ProgressItem(src, start, nested, outElements, ids1, rules1, pos, items, out, last, symbolIds, rules, next, item);
          last := |out|;
          pos, out, items := next, es, AndItem(items, item);
        }
        GrowthTransitive(ids0, rules0, ids1, rules1, symbolIds, rules);
      }
      ProgressDone(src, start, nested, outElements, symbolIds, rules, pos, items, out, last);
      SequenceStops(src, pos, nested, PlainItems(items));
      ok := true;
    }

    /** One item of any kind but a repetition, and the blanks after it. */
    method ParseItem(src: string, start: nat, ruleName: string, outElements: seq<Element>, nested: bool)
      returns (ok: bool, pos: nat, out: seq<Element>, ghost item: Item)
      requires Valid() && '_' !in ruleName && start < |src| && !EndsSequence(At(src, start))
      requires At(src, start) != '*' && At(src, start) != '+' && At(src, start) != '?'
      modifies this
      ensures ok ==> Valid() && Grows(old(symbolIds), old(rules), symbolIds, rules)
      ensures ok ==> start < pos <= |src| && ItemSpelled(src, start, pos, item, nested) && ItemBuilt(rules, symbolIds, item)
      ensures ok ==> out == outElements + SequenceElements(ItemSymbols(symbolIds, item))
      ensures ReadItem(src, start, nested) == if ok then Got(PlainItem(item), pos) else Refused
      decreases |src| - start, 1
    {
      hide ReadChars, ReadRanges, ReadAlts, ValidState, Grows, SequenceElements, AltsSpelled, IsWordChar, CharsSpelled, RangesSpelled, ClassElements, LiteralSymbols;
      SameGrows(symbolIds, rules);
      pos, out, item := start, outElements, Literal([]);
      var c := At(src, start);
      if c == '"' {
        ghost var chars;
        ok, pos, out, chars := ParseLiteral(src, start + 1, outElements);
        if !ok {
          return;
        }
        item := Literal(chars);
        pos := ParseSpace(src, pos + 1, nested);
      } else if c == '[' {
        ghost var ranges;
        var negated := At(src, start + 1) == '^';
        ok, pos, out, ranges := ParseClass(src, if negated then start + 2 else start + 1, negated, outElements);
        if !ok {
          return;
        }
        item := Class(negated, ranges);
        ClassSymbols(symbolIds, negated, ranges);
        pos := ParseSpace(src, pos + 1, nested);
      } else {
        var id;
        if c == '(' {
          ok, pos, id, item := ParseGroup(src, start, nested, ruleName);
          if !ok {
            return;
          }
        } else {
          id, pos, item := ParseReference(src, start, nested);
          ok := true;
        }
        out := outElements + [Element(RULE_REF, id)];
        OneSymbolElements(id);
      }
    }

    /** Sequences separated by bars; stores their rule. */
    method ParseAlternates(src: string, start: nat, ruleName: string, ruleId: nat, nested: bool)
      returns (ok: bool, pos: nat, ghost alts: Alts)
      requires Valid() && '_' !in ruleName && ruleId < |symbolIds| && start <= |src|
      requires RuleAt(rules, ruleId) == [] || !IsMade(symbolIds, ruleId)
      modifies this
      ensures ok ==> Valid() && GrowsBut(old(symbolIds), old(rules), symbolIds, rules, ruleId)
      ensures ok ==> start <= pos <= |src| && AltsSpelled(src, start, pos, alts, nested) && EndsSequence(At(src, pos)) && At(src, pos) != '|'
      ensures ok ==> AltsBuilt(rules, symbolIds, alts) && HasRule(rules, ruleId, AltsForm(symbolIds, alts))
      ensures ReadAlts(src, start, nested) == if ok then Got(PlainAlts(alts), pos) else Refused
      decreases |src| - start, 3
    {
      hide ReadItems, ValidState, Grows, KeepsMade, ItemsSpelled, ItemsBuilt, ItemsSymbols, SequenceElements, EndsSequence, IsMade, RuleAt, WithRule;
      ghost var ids0, rules0 := symbolIds, rules;
      ghost var items;
      var rule;
      alts := OneAlt(NoItem);
      ok, pos, rule, items := ParseSequence(src, start, ruleName, [], nested);
      if !ok {
        return;
      }
      alts := OneAlt(items);
      while At(src, pos) == '|'
        invariant Valid() && Grows(ids0, rules0, symbolIds, rules) && start <= pos <= |src|
        invariant AltsSpelled(src, start, pos, alts, nested) && AltsBuilt(rules, symbolIds, alts) && EndsSequence(At(src, pos))
        invariant rule == AlternativeElements(AltsForm(symbolIds, alts))
        invariant ReadAlts(src, start, nested) == MoreReadAlts(src, pos, nested, PlainAlts(alts))
        decreases |src| - pos
      {
        ghost var ids1, rules1, bar := symbolIds, rules, pos;
        rule := rule + [Element(ALT, 0)];
        pos := ParseSpace(src, pos + 1, true);
        ok, pos, rule, items := ParseSequence(src, pos, ruleName, rule, nested);
        if !ok {
          return;
        }
        GrowthKeeps(ids1, rules1, symbolIds, rules);
        AltsStay(ids1, rules1, symbolIds, rules, alts);
        GrowthTransitive(ids0, rules0, ids1, rules1, symbolIds, rules);
        MoreAlts(src, start, bar, pos, alts, items, nested);
        alts := OrAlt(alts, items);
      }
      rule := rule + [Element(END, 0)];
      AlternatesStored(ids0, rules0, symbolIds, rules, ruleId, alts);
      AddRule(ruleId, rule);
      ok := true;
    }
  }

  lemma ZeroEnds(src: string, pos: nat)
    ensures pos >= |src| ==> EndsSequence(At(src, pos))
  {}

  /** Growth, except that one rule given out before was stored. */
  ghost predicate GrowsBut(ids: Ids, rules: Rules, ids': Ids, rules': Rules, id: nat)
  {
    && Extends(ids, ids')
    && (forall k: nat {:trigger RuleAt(rules', k)} :: k < |ids| && k != id ==> RuleAt(rules', k) == RuleAt(rules, k))
    && forall x {:trigger ids'[x]} :: x in ids' && x !in ids ==> ('_' in x <==> RuleAt(rules', ids'[x]) != [])
  }

  /** One generated name was added. */
  ghost predicate OneMade(ids: Ids, ids': Ids, id: nat)
  {
    && Extends(ids, ids') && id == |ids| && |ids'| == id + 1 && IsMade(ids', id)
    && forall x {:trigger ids'[x]} :: x in ids' && x !in ids ==> '_' in x && ids'[x] == id
  }

  lemma OneMadeIs(ids: Ids, ids': Ids, id: nat)
    requires OneMade(ids, ids', id)
    ensures id < |ids'| && IsMade(ids', id) && Extends(ids, ids')
  {}

  // ----- refusals -----

  lemma SignRead(src: string, p: nat, nested: bool, items: Items, op: Repetition, id: nat)
    requires p <= |src| && At(src, p) == Sign(op) && items.AndItem? && Emits(items.last)
    ensures ReadItems(src, p, nested, PlainItems(items)) ==
      ReadItems(src, Space(src, p + 1, nested), nested, PlainItems(AndItem(items.init, Repeat(items.last, op, id))))
  {
    SignIsRead(op);
    EmitsPlain(items.last);
    hide Emits, Space, IsSign, SignOf, EndsSequence, Sign;
  }

  /** A sign is refused where the last item, if any, put nothing out. */
  lemma SignRefused(
    src: string, start: nat, nested: bool, before: seq<Element>,
    ids: Ids, rules: Rules, pos: nat, items: Items, out: seq<Element>, last: nat)
    requires Progress(src, start, nested, before, ids, rules, pos, items, out, last) && last == |out|
    requires pos <= |src| && IsSign(At(src, pos))
    ensures ReadItems(src, pos, nested, PlainItems(items)) == Refused
  {
    UnderOut(ids, items, before, out, last);
    if items.AndItem? {
      EmitsElements(rules, ids, items.last);
      EmitsPlain(items.last);
    }
    hide Emits, Progress, Under;
  }

  lemma GroupReads(src: string, p: nat, nested: bool)
    requires p < |src| && At(src, p) == '('
    ensures var r, item := ReadAlts(src, Space(src, p + 1, true), true), ReadItem(src, p, nested);
      && (r.Refused? ==> item == Refused)
      && (r.Got? ==> item == if At(src, r.next) == ')' then Got(Group(r.value, 0), Space(src, r.next + 1, nested)) else Refused)
  {
    hide ReadAlts, Space;
  }

  lemma ItemStep(src: string, p: nat, nested: bool, items: Items)
    requires p <= |src| && !EndsSequence(At(src, p)) && !IsSign(At(src, p))
    ensures ReadItem(src, p, nested).Refused? ==> ReadItems(src, p, nested, items) == Refused
    ensures var r := ReadItem(src, p, nested);
      r.Got? ==> ReadItems(src, p, nested, items) == ReadItems(src, r.next, nested, AndItem(items, r.value))
  {
    hide ReadItem;
  }

  lemma SequenceStops(src: string, p: nat, nested: bool, items: Items)
    requires p <= |src| && EndsSequence(At(src, p))
    ensures ReadItems(src, p, nested, items) == Got(items, p)
  {}

  // ----- growth -----

  lemma SameGrows(ids: Ids, rules: Rules)
    ensures Grows(ids, rules, ids, rules)
  {}

  lemma GrowthKeeps(ids: Ids, rules: Rules, ids': Ids, rules': Rules)
    requires ValidState(ids, rules) && Grows(ids, rules, ids', rules')
    ensures KeepsMade(ids, rules, ids', rules')
  {
    hide Grows, ValidIds, KeepsMade, IsRule;
    GrowsKeepsMade(ids, rules, ids', rules');
  }

  lemma GrowthTransitive(ids: Ids, rules: Rules, ids1: Ids, rules1: Rules, ids2: Ids, rules2: Rules)
    requires Grows(ids, rules, ids1, rules1) && Grows(ids1, rules1, ids2, rules2)
    requires ValidState(ids1, rules1) && ValidState(ids2, rules2)
    ensures Grows(ids, rules, ids2, rules2)
  {
    hide Grows, ValidIds, IsRule;
    GrowsTransitive(ids, rules, ids1, rules1, ids2, rules2);
  }

  /** The rule of a group was stored under a number given out just before. */
  lemma GroupGrows(ids0: Ids, rules0: Rules, ids1: Ids, ids: Ids, rules: Rules, id: nat, form: Alternatives)
    requires OneMade(ids0, ids1, id) && GrowsBut(ids1, rules0, ids, rules, id) && HasRule(rules, id, form)
    ensures Grows(ids0, rules0, ids, rules) && IsMade(ids, id)
  {
    MadeExtends(ids1, ids, id);
    hide IsMade, AlternativeElements;
    forall x {:trigger ids[x]} | x in ids && x !in ids0 ensures '_' in x <==> RuleAt(rules, ids[x]) != [] {
      if x in ids1 {
        assert ids[x] == ids1[x] == id;
      }
    }
  }

  /** A rule still missing at its number, or under a plain name, does not disturb what its alternatives need. */
  lemma AlternatesStored(ids0: Ids, rules0: Rules, ids: Ids, rules: Rules, id: nat, alts: Alts)
    requires ValidState(ids0, rules0) && ValidState(ids, rules) && Grows(ids0, rules0, ids, rules) && id < |ids0|
    requires RuleAt(rules0, id) == [] || !IsMade(ids0, id)
    requires AltsBuilt(rules, ids, alts)
    ensures var rules' := WithRule(rules, id, RuleElements(AltsForm(ids, alts)));
      && ValidState(ids, rules') && GrowsBut(ids0, rules0, ids, rules', id)
      && AltsBuilt(rules', ids, alts) && HasRule(rules', id, AltsForm(ids, alts))
  {
    var form := AltsForm(ids, alts);
    var rules' := WithRule(rules, id, RuleElements(form));
    assert ValidIds(ids) && ValidIds(ids0) && |ids0| <= |ids|;
    if RuleAt(rules0, id) != [] {
      PlainStays(ids0, ids, id);
    }
    assert RuleAt(rules, id) == [] || !IsMade(ids, id);
    StoreGrowsBut(ids0, rules0, ids, rules, id, RuleElements(form));
    hide ValidIds, IsRule, WithRule, IsMade, AltsBuilt, AltsForm, Grows, GrowsBut;
    FormWellFormed(ids, alts);
    AltsBelow(ids, rules, alts);
    StateWithRule(ids, rules, id, form);
    StoreKeepsMade(ids, rules, id, RuleElements(form));
    AltsStay(ids, rules, ids, rules', alts);
    StoredIsThere(rules, id, form);
  }

  lemma PlainStays(ids0: Ids, ids: Ids, id: nat)
    requires ValidIds(ids0) && ValidIds(ids) && Extends(ids0, ids) && id < |ids0| && !IsMade(ids0, id)
    ensures !IsMade(ids, id)
  {
    assert HasName(ids0, id);
    var x :| x in ids0 && ids0[x] == id;
    NamedNotMade(ids, x);
  }

  lemma StoreGrowsBut(ids0: Ids, rules0: Rules, ids: Ids, rules: Rules, id: nat, rule: seq<Element>)
    requires ValidIds(ids0) && ValidIds(ids) && Grows(ids0, rules0, ids, rules) && id < |ids0|
    ensures GrowsBut(ids0, rules0, ids, WithRule(rules, id, rule), id)
  {
    var rules' := WithRule(rules, id, rule);
    forall x {:trigger ids[x]} | x in ids && x !in ids0 ensures '_' in x <==> RuleAt(rules', ids[x]) != [] {
      NewNameIsNew(ids0, ids, x, id);
    }
    hide WithRule, ValidIds;
  }

  lemma NewNameIsNew(ids0: Ids, ids: Ids, x: string, id: nat)
    requires ValidIds(ids0) && ValidIds(ids) && Extends(ids0, ids) && x in ids && x !in ids0 && id < |ids0|
    ensures ids[x] != id
  {
    assert HasName(ids0, id);
    var y :| y in ids0 && ids0[y] == id;
    assert ids[y] == id;
  }

  lemma RepeatRuleReady(
    op: Repetition, ids0: Ids, rules0: Rules, ids: Ids, item: Item, id: nat, es: seq<Element>, rule: seq<Element>)
    requires es == SequenceElements(ItemSymbols(ids0, item)) && rule == RepeatElements(op, es, id)
    ensures rule == RuleElements(RepeatForm(op, ItemSymbols(ids0, item), id))
  {
    RepeatElementsForm(op, ItemSymbols(ids0, item), id);
  }

  /** Storing the rule of a repetition under its new number. */
  lemma RepeatRuleStored(ids0: Ids, rules0: Rules, ids: Ids, id: nat, op: Repetition, item: Item)
    requires ValidState(ids0, rules0) && ValidState(ids, rules0) && OneMade(ids0, ids, id)
    requires ItemBuilt(rules0, ids0, item)
    ensures var rules := WithRule(rules0, id, RuleElements(RepeatForm(op, ItemSymbols(ids0, item), id)));
      && ValidState(ids, rules) && Grows(ids0, rules0, ids, rules) && KeepsMade(ids0, rules0, ids, rules)
      && HasRule(rules, id, RepeatForm(op, ItemSymbols(ids0, item), id)) && IsMade(ids, id)
  {
    var form := RepeatForm(op, ItemSymbols(ids0, item), id);
    var rules := WithRule(rules0, id, RuleElements(form));
    assert ValidIds(ids0) && ValidIds(ids);
    hide ValidIds, IsRule, WithRule, ItemBuilt, ItemSymbols;
    ItemNonEmpty(ids0, item);
    RepeatWellFormed(op, ItemSymbols(ids0, item), id);
    ItemBelow(ids0, rules0, item);
    RepeatBelow(op, ItemSymbols(ids0, item), id, |ids0|, |ids|);
    StateWithRule(ids, rules0, id, form);
    StoreGrows(ids0, ids, rules0, id, RuleElements(form));
    GrowsKeepsMade(ids0, rules0, ids, rules);
    StoredIsThere(rules0, id, form);
  }

  lemma StoredIsThere(rules: Rules, id: nat, form: Alternatives)
    ensures HasRule(WithRule(rules, id, RuleElements(form)), id, form)
  {
    assert RuleAt(WithRule(rules, id, RuleElements(form)), id) == RuleElements(form);
    hide WithRule;
  }

  lemma RepeatBelow(op: Repetition, syms: Symbols, id: nat, n: nat, m: nat)
    requires SymbolsBelow(syms, n) && n <= m && id < m
    ensures RefsBelow(RepeatForm(op, syms, id), m)
  {
    SymbolsBelowMore(syms, n, m);
  }

  /** A rule stored under a number given out just before is growth. */
  lemma StoreGrows(ids0: Ids, ids: Ids, rules: Rules, id: nat, rule: seq<Element>)
    requires OneMade(ids0, ids, id) && rule != []
    ensures Grows(ids0, rules, ids, WithRule(rules, id, rule))
  {
    hide WithRule, IsMade;
  }
}
