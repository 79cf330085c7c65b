/** The rules emitted for a grammar derive exactly the words that the grammar denotes. */
module GrammarEquivalence {
  import opened GrammarForm
  import opened GrammarLanguage
  import opened GrammarMeaning

  ghost predicate Undefined(rules: Rules, id: nat)
  {
    id >= |rules| || rules[id] == []
  }

  /** The rules hold what was emitted for `defs`; of the other names exactly the generated ones have a rule. */
  ghost predicate Emitted(rules: Rules, ids: Ids, defs: Definitions)
  {
    && (forall x {:trigger defs[x]} :: x in defs ==>
      x in ids && HasRule(rules, ids[x], AltsForm(ids, defs[x])) && AltsBuilt(rules, ids, defs[x]))
    && forall x {:trigger ids[x]} :: x in ids && x !in defs ==> ('_' in x <==> !Undefined(rules, ids[x]))
  }

  /** No definition has an empty class. */
  ghost predicate Proper(defs: Definitions)
  {
    forall x {:trigger defs[x]} :: x in defs ==> AltsProper(defs[x])
  }

  ghost predicate Linked(rules: Rules, ids: Ids, defs: Definitions)
  {
    Emitted(rules, ids, defs) && Proper(defs)
  }

  ghost predicate Good(rules: Rules, ids: Ids, item: Item)
  {
    ItemBuilt(rules, ids, item) && ItemProper(item)
  }

  // ----- every derived word is meant -----

  lemma OneCharMatch(rules: Rules, n: nat, c: nat, v: Word)
    ensures SymbolMatch(rules, n, Chars(false, AndRange(NoRange, One(c))), v) <==> v == [c]
  {
    assert InRanges(AndRange(NoRange, One(c)), c);
    if |v| == 1 {
      assert InRanges(AndRange(NoRange, One(c)), v[0]) <==> v[0] == c;
    }
  }

  lemma {:induction false} LiteralMatch(rules: Rules, n: nat, chars: Word, w: Word)
    ensures SequenceMatch(rules, n, LiteralSymbols(chars), w) <==> w == chars
    decreases |chars|
  {
    if chars != [] {
      var k := |chars| - 1;
      var init, c := chars[..k], chars[k];
      var sym := Chars(false, AndRange(NoRange, One(c)));
      forall v: Word ensures SymbolMatch(rules, n, sym, v) <==> v == [c] {
        OneCharMatch(rules, n, c, v);
      }
      assert LiteralSymbols(chars) == Then(LiteralSymbols(init), sym);
      hide SymbolMatch, LiteralSymbols;
      assert init + [c] == chars;
      if w == chars {
        LiteralMatch(rules, n, init, init);
        ThenMatch(rules, n, LiteralSymbols(init), sym, init, [c]);
      }
      if SequenceMatch(rules, n, LiteralSymbols(chars), w) {
        var i :| 0 <= i <= |w| && SequenceMatch(rules, n, LiteralSymbols(init), w[..i]) && SymbolMatch(rules, n, sym, w[i..]);
        LiteralMatch(rules, n, init, w[..i]);
        assert w == w[..i] + w[i..];
      }
    }
  }

  lemma {:induction false} DerivedItemMeant(rules: Rules, ids: Ids, defs: Definitions, n: nat, item: Item, w: Word)
    requires Linked(rules, ids, defs) && Good(rules, ids, item)
    requires SequenceMatch(rules, n, ItemSymbols(ids, item), w)
    ensures ItemMeans(defs, n, item, w)
    decreases n, item, 0
  {
    hide Linked, SequenceMatch, AltsMean, AltsBuilt, AltsProper, HasRule;
    match item
    case Literal(chars) => LiteralMatch(rules, n, chars, w);
    case Class(negated, ranges) => OneSymbol(rules, n, Chars(negated, ranges), w);
    case Name(name) =>
      OneSymbol(rules, n, Ref(ids[name]), w);
      NameLinked(rules, ids, defs, name, n - 1, w);
      DerivedAltsMeant(rules, ids, defs, n - 1, defs[name], w);
    case Group(alts, id) =>
      OneSymbol(rules, n, Ref(id), w);
      FormWellFormed(ids, alts);
      RuleByForm(rules, n - 1, id, AltsForm(ids, alts), w);
      DerivedAltsMeant(rules, ids, defs, n - 1, alts, w);
      AltsDeeper(defs, n - 1, n, alts, w);
    case Repeat(it, op, id) =>
      OneSymbol(rules, n, Ref(id), w);
      var k := DerivedTimesMeant(rules, ids, defs, n - 1, it, op, id, w);
      TimesDeeper(defs, n - 1, n, it, k, w);
  }

  /** A name whose rule matches something is a defined one. */
  lemma NameLinked(rules: Rules, ids: Ids, defs: Definitions, name: string, n: nat, w: Word)
    requires Linked(rules, ids, defs) && name in ids && '_' !in name && RuleMatch(rules, n, ids[name], w)
    ensures name in defs && AltsBuilt(rules, ids, defs[name]) && AltsProper(defs[name])
    ensures AlternativesMatch(rules, n, AltsForm(ids, defs[name]), w)
  {
    hide AlternativesMatch, AltsBuilt, AltsProper, AltsForm, HasRule;
    assert !Undefined(rules, ids[name]);
    FormWellFormed(ids, defs[name]);
    RuleByForm(rules, n, ids[name], AltsForm(ids, defs[name]), w);
  }

  lemma RepeatGood(rules: Rules, ids: Ids, it: Item, op: Repetition, id: nat)
    requires Good(rules, ids, Repeat(it, op, id))
    ensures Good(rules, ids, it) && HasRule(rules, id, RepeatForm(op, ItemSymbols(ids, it), id))
  {}

  lemma {:induction false} DerivedTimesMeant(rules: Rules, ids: Ids, defs: Definitions, n: nat, it: Item, op: Repetition, id: nat, w: Word)
    returns (k: nat)
    requires Linked(rules, ids, defs) && Good(rules, ids, Repeat(it, op, id)) && RuleMatch(rules, n, id, w)
    ensures Allows(op, k) && Times(defs, n, it, k, w)
    decreases n, it, 1
  {
    RepeatGood(rules, ids, it, op, id);
    hide Linked, SequenceMatch, RuleMatch, ItemMeans, HasRule, Good, Times, ItemSymbols;
    var syms := ItemSymbols(ids, it);
    ItemNonEmpty(ids, it);
    RepeatWellFormed(op, syms, id);
    RuleByForm(rules, n, id, RepeatForm(op, syms, id), w);
    if op != Optional && SequenceMatch(rules, n, Then(syms, Ref(id)), w) {
      var i := SplitLast(rules, n, syms, id, w);
      DerivedItemMeant(rules, ids, defs, n, it, w[..i]);
      k := DerivedTimesMeant(rules, ids, defs, n - 1, it, op, id, w[i..]);
      TimesDeeper(defs, n - 1, n, it, k, w[i..]);
      OneMoreTime(defs, n, it, k, w, i);
      k := k + 1;
    } else if (op == Optional && SequenceMatch(rules, n, syms, w)) || op == Plus {
      assert SequenceMatch(rules, n, syms, w);
      DerivedItemMeant(rules, ids, defs, n, it, w);
      NoTimes(defs, n, it);
      assert w[|w|..] == [] && w[..|w|] == w;
      OneMoreTime(defs, n, it, 0, w, |w|);
      k := 1;
    } else {
      OnlyNothing(rules, n, w);
      NoTimes(defs, n, it);
      k := 0;
    }
  }

  lemma OnlyNothing(rules: Rules, n: nat, w: Word)
    ensures SequenceMatch(rules, n, Nothing, w) ==> w == []
  {}

  lemma SplitLast(rules: Rules, n: nat, syms: Symbols, id: nat, w: Word) returns (i: nat)
    requires SequenceMatch(rules, n, Then(syms, Ref(id)), w)
    ensures i <= |w| && SequenceMatch(rules, n, syms, w[..i]) && n > 0 && RuleMatch(rules, n - 1, id, w[i..])
  {
    hide RuleMatch;
    i :| 0 <= i <= |w| && SequenceMatch(rules, n, syms, w[..i]) && SymbolMatch(rules, n, Ref(id), w[i..]);
  }

  lemma NoTimes(defs: Definitions, n: nat, it: Item)
    ensures Times(defs, n, it, 0, [])
  {}

  lemma OneMoreTime(defs: Definitions, n: nat, it: Item, k: nat, w: Word, i: nat)
    requires i <= |w| && ItemMeans(defs, n, it, w[..i]) && Times(defs, n, it, k, w[i..])
    ensures Times(defs, n, it, k + 1, w)
  {
    hide ItemMeans;
  }

  lemma {:induction false} DerivedItemsMeant(rules: Rules, ids: Ids, defs: Definitions, n: nat, items: Items, w: Word)
    requires Linked(rules, ids, defs) && ItemsBuilt(rules, ids, items) && ItemsProper(items)
    requires SequenceMatch(rules, n, ItemsSymbols(ids, items), w)
    ensures ItemsMean(defs, n, items, w)
    decreases n, items, 0
  {
    match items
    case NoItem =>
    case AndItem(init, item) =>
      hide Linked, SequenceMatch, ItemMeans, ItemSymbols, ItemBuilt, ItemProper;
      var i := SplitMatch(rules, n, ItemsSymbols(ids, init), ItemSymbols(ids, item), w);
      assert Good(rules, ids, item);
      DerivedItemsMeant(rules, ids, defs, n, init, w[..i]);
      DerivedItemMeant(rules, ids, defs, n, item, w[i..]);
  }

  lemma {:induction false} DerivedAltsMeant(rules: Rules, ids: Ids, defs: Definitions, n: nat, alts: Alts, w: Word)
    requires Linked(rules, ids, defs) && AltsBuilt(rules, ids, alts) && AltsProper(alts)
    requires AlternativesMatch(rules, n, AltsForm(ids, alts), w)
    ensures AltsMean(defs, n, alts, w)
    decreases n, alts, 0
  {
    hide Linked, SequenceMatch, ItemsMean, ItemsSymbols, ItemsBuilt, ItemsProper;
    if SequenceMatch(rules, n, ItemsSymbols(ids, alts.items), w) {
      DerivedItemsMeant(rules, ids, defs, n, alts.items, w);
    } else {
      DerivedAltsMeant(rules, ids, defs, n, alts.before, w);
    }
  }

  // ----- every meant word is derived -----

  function Max(a: nat, b: nat): nat
  {
    if a < b then b else a
  }

  lemma {:induction false} MeantItemDerived(rules: Rules, ids: Ids, defs: Definitions, n: nat, item: Item, w: Word) returns (m: nat)
    requires Linked(rules, ids, defs) && Good(rules, ids, item) && ItemMeans(defs, n, item, w)
    ensures SequenceMatch(rules, m, ItemSymbols(ids, item), w)
    decreases n, item, 0
  {
    hide Linked, SequenceMatch, AltsMean, AltsBuilt, AltsProper, HasRule, RuleMatch, Times;
    match item
    case Literal(chars) =>
      m := 0;
      LiteralMatch(rules, m, chars, w);
    case Class(negated, ranges) =>
      m := 0;
      OneSymbol(rules, m, Chars(negated, ranges), w);
    case Name(name) =>
      DefinitionLinked(rules, ids, defs, name);
      m := MeantAltsDerived(rules, ids, defs, n - 1, defs[name], w);
      RuleByForm(rules, m, ids[name], AltsForm(ids, defs[name]), w);
      m := m + 1;
      OneSymbol(rules, m, Ref(ids[name]), w);
    case Group(alts, id) =>
      m := MeantAltsDerived(rules, ids, defs, n, alts, w);
      FormWellFormed(ids, alts);
      RuleByForm(rules, m, id, AltsForm(ids, alts), w);
      m := m + 1;
      OneSymbol(rules, m, Ref(id), w);
    case Repeat(it, op, id) =>
      var k: nat :| Allows(op, k) && Times(defs, n, it, k, w);
      m := MeantTimesDerived(rules, ids, defs, n, it, op, id, k, w);
      m := m + 1;
      OneSymbol(rules, m, Ref(id), w);
  }

  lemma DefinitionLinked(rules: Rules, ids: Ids, defs: Definitions, name: string)
    requires Linked(rules, ids, defs) && name in defs
    ensures name in ids && HasRule(rules, ids[name], AltsForm(ids, defs[name])) && WellFormed(AltsForm(ids, defs[name]))
    ensures AltsBuilt(rules, ids, defs[name]) && AltsProper(defs[name])
  {
    FormWellFormed(ids, defs[name]);
  }

  lemma RepeatForms(rules: Rules, m: nat, op: Repetition, syms: Symbols, id: nat, w: Word)
    ensures op != Plus && w == [] ==> AlternativesMatch(rules, m, RepeatForm(op, syms, id), w)
    ensures op != Star && SequenceMatch(rules, m, syms, w) ==> AlternativesMatch(rules, m, RepeatForm(op, syms, id), w)
    ensures op != Optional && SequenceMatch(rules, m, Then(syms, Ref(id)), w) ==>
      AlternativesMatch(rules, m, RepeatForm(op, syms, id), w)
  {
    NothingMatch(rules, m);
    hide SequenceMatch;
  }

  /** One piece before what the repetition's rule already matches. */
  lemma PieceBefore(rules: Rules, a: nat, b: nat, syms: Symbols, id: nat, v: Word, w: Word) returns (m: nat)
    requires SequenceMatch(rules, a, syms, v) && RuleMatch(rules, b, id, w)
    ensures SequenceMatch(rules, m, Then(syms, Ref(id)), v + w)
  {
    hide SequenceMatch, RuleMatch;
    m := Max(a, b) + 1;
    SequenceDeeper(rules, a, m, syms, v);
    RuleDeeper(rules, b, m - 1, id, w);
    ThenMatch(rules, m, syms, Ref(id), v, w);
  }

  lemma TimesNone(defs: Definitions, n: nat, it: Item, k: nat, w: Word)
    requires Times(defs, n, it, k, w) && k == 0
    ensures w == []
  {}

  lemma SplitTimes(defs: Definitions, n: nat, it: Item, k: nat, w: Word) returns (i: nat)
    requires Times(defs, n, it, k, w) && k > 0
    ensures i <= |w| && ItemMeans(defs, n, it, w[..i]) && Times(defs, n, it, k - 1, w[i..])
  {
    hide ItemMeans;
    i :| 0 <= i <= |w| && ItemMeans(defs, n, it, w[..i]) && Times(defs, n, it, k - 1, w[i..]);
  }

  lemma AllowsFewer(op: Repetition, k: nat)
    requires Allows(op, k)
    ensures k > 1 && op != Optional ==> Allows(op, k - 1)
    ensures k == 0 ==> op != Plus
    ensures op == Optional ==> k <= 1
    ensures op == Star ==> Allows(op, if k == 0 then 0 else k - 1)
  {}

  lemma {:induction false} MeantTimesDerived(
    rules: Rules, ids: Ids, defs: Definitions, n: nat, it: Item, op: Repetition, id: nat, k: nat, w: Word)
    returns (m: nat)
    requires Linked(rules, ids, defs) && Good(rules, ids, Repeat(it, op, id))
    requires Allows(op, k) && Times(defs, n, it, k, w)
    ensures RuleMatch(rules, m, id, w)
    decreases n, it, k + 1
  {
    hide *;
    RepeatGood(rules, ids, it, op, id);
    AllowsFewer(op, k);
    var syms := ItemSymbols(ids, it);
    ItemNonEmpty(ids, it);
    RepeatWellFormed(op, syms, id);
    if k == 0 {
      m := 0;
      TimesNone(defs, n, it, k, w);
    } else {
      var i := SplitTimes(defs, n, it, k, w);
      var a := MeantItemDerived(rules, ids, defs, n, it, w[..i]);
      if op == Optional || (op == Plus && k == 1) {
        m := a;
        TimesNone(defs, n, it, k - 1, w[i..]);
        assert w[..i] == w;
      } else {
        var b := MeantTimesDerived(rules, ids, defs, n, it, op, id, k - 1, w[i..]);
        m := PieceBefore(rules, a, b, syms, id, w[..i], w[i..]);
        assert w[..i] + w[i..] == w;
        assert SequenceMatch(rules, m, Then(syms, Ref(id)), w);
      }
    }
    RepeatForms(rules, m, op, syms, id, w);
    RuleByForm(rules, m, id, RepeatForm(op, syms, id), w);
  }

  lemma {:induction false} MeantItemsDerived(rules: Rules, ids: Ids, defs: Definitions, n: nat, items: Items, w: Word) returns (m: nat)
    requires Linked(rules, ids, defs) && ItemsBuilt(rules, ids, items) && ItemsProper(items) && ItemsMean(defs, n, items, w)
    ensures SequenceMatch(rules, m, ItemsSymbols(ids, items), w)
    decreases n, items, 0
  {
    match items
    case NoItem => m := 0;
    case AndItem(init, item) =>
      hide Linked, Emitted, Proper, SequenceMatch, ItemMeans, ItemSymbols, ItemBuilt, ItemProper, Concat;
      assert ItemsSymbols(ids, items) == Concat(ItemsSymbols(ids, init), ItemSymbols(ids, item));
      var i :| 0 <= i <= |w| && ItemsMean(defs, n, init, w[..i]) && ItemMeans(defs, n, item, w[i..]);
      assert Good(rules, ids, item);
      var a := MeantItemsDerived(rules, ids, defs, n, init, w[..i]);
      var b := MeantItemDerived(rules, ids, defs, n, item, w[i..]);
      m := Max(a, b);
      SequenceDeeper(rules, a, m, ItemsSymbols(ids, init), w[..i]);
      SequenceDeeper(rules, b, m, ItemSymbols(ids, item), w[i..]);
      ConcatMatch(rules, m, ItemsSymbols(ids, init), ItemSymbols(ids, item), w[..i], w[i..]);
      assert w[..i] + w[i..] == w;
  }

  lemma {:induction false} MeantAltsDerived(rules: Rules, ids: Ids, defs: Definitions, n: nat, alts: Alts, w: Word) returns (m: nat)
    requires Linked(rules, ids, defs) && AltsBuilt(rules, ids, alts) && AltsProper(alts) && AltsMean(defs, n, alts, w)
    ensures AlternativesMatch(rules, m, AltsForm(ids, alts), w)
    decreases n, alts, 0
  {
    hide Linked, SequenceMatch, ItemsMean, ItemsSymbols, ItemsBuilt, ItemsProper;
    if ItemsMean(defs, n, alts.items, w) {
      m := MeantItemsDerived(rules, ids, defs, n, alts.items, w);
    } else {
      m := MeantAltsDerived(rules, ids, defs, n, alts.before, w);
    }
  }

  // ----- the main result -----

  /** Compiling preserves meaning. */
  lemma CompilingPreservesMeaning(rules: Rules, ids: Ids, defs: Definitions, name: string, w: Word)
    requires Linked(rules, ids, defs) && name in ids && '_' !in name
    ensures Derives(rules, ids[name], w) <==> Denotes(defs, name, w)
  {
    hide Linked, RuleMatch, AltsMean, AltsForm;
    if Derives(rules, ids[name], w) {
      var n: nat :| RuleMatch(rules, n, ids[name], w);
      NameLinked(rules, ids, defs, name, n, w);
      DerivedAltsMeant(rules, ids, defs, n, defs[name], w);
    }
    if Denotes(defs, name, w) {
      var n: nat :| AltsMean(defs, n, defs[name], w);
      DefinitionLinked(rules, ids, defs, name);
      var m := MeantAltsDerived(rules, ids, defs, n, defs[name], w);
      RuleByForm(rules, m, ids[name], AltsForm(ids, defs[name]), w);
    }
  }

  /** What is emitted for a class means the class exactly when it names a character: an empty one matches the empty word. */
  lemma ClassMeaning(rules: Rules, ids: Ids, defs: Definitions, n: nat, negated: bool, ranges: Ranges)
    ensures (forall w: Word {:trigger CharMatch(negated, ranges, w)} ::
      SequenceMatch(rules, n, ItemSymbols(ids, Class(negated, ranges)), w) <==> ItemMeans(defs, n, Class(negated, ranges), w))
      <==> ranges.AndRange?
  {
    assert !CharMatch(negated, ranges, []);
    hide SequenceMatch, CharMatch;
    if ranges.AndRange? {
      forall w: Word
        ensures SequenceMatch(rules, n, ItemSymbols(ids, Class(negated, ranges)), w) <==> CharMatch(negated, ranges, w)
      {
        OneSymbol(rules, n, Chars(negated, ranges), w);
      }
    } else {
      NothingMatch(rules, n);
    }
  }
}
