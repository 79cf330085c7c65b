/** What a grammar's source means, and that the rules built from it mean the same. */
module GrammarMeaning {
  import opened GrammarForm
  import opened GrammarLanguage

  // ----- syntax -----

  datatype Repetition = Star | Plus | Optional

  /** An item of a definition; groups and repetitions carry the number of the rule made for them. */
  datatype Item =
    | Literal(chars: Word)
    | Class(negated: bool, ranges: Ranges)
    | Name(name: string)
    | Group(alts: Alts, id: nat)
    | Repeat(item: Item, op: Repetition, id: nat)

  datatype Items = NoItem | AndItem(init: Items, last: Item)

  datatype Alts = OneAlt(items: Items) | OrAlt(before: Alts, items: Items)

  /** The definition of each name. */
  type Definitions = map<string, Alts>

  // ----- meaning -----

  predicate Allows(op: Repetition, k: nat)
  {
    match op case Star => true case Plus => k >= 1 case Optional => k <= 1
  }

  ghost predicate ItemMeans(defs: Definitions, n: nat, item: Item, w: Word)
    decreases n, item, 0
  {
    match item
    case Literal(chars) => w == chars
    case Class(negated, ranges) => CharMatch(negated, ranges, w)
    case Name(name) => n > 0 && name in defs && AltsMean(defs, n - 1, defs[name], w)
    case Group(alts, _) => AltsMean(defs, n, alts, w)
    case Repeat(it, op, _) => exists k: nat :: Allows(op, k) && Times(defs, n, it, k, w)
  }

  /** The word falls into `k` pieces, each of which the item stands for. */
  ghost predicate Times(defs: Definitions, n: nat, item: Item, k: nat, w: Word)
    decreases n, item, k + 1
  {
    if k == 0 then w == []
    else exists i {:trigger w[..i]} :: 0 <= i <= |w| && ItemMeans(defs, n, item, w[..i]) && Times(defs, n, item, k - 1, w[i..])
  }

  ghost predicate ItemsMean(defs: Definitions, n: nat, items: Items, w: Word)
    decreases n, items, 0
  {
    match items
    case NoItem => w == []
    case AndItem(init, item) =>
      exists i {:trigger w[..i]} :: 0 <= i <= |w| && ItemsMean(defs, n, init, w[..i]) && ItemMeans(defs, n, item, w[i..])
  }

  ghost predicate AltsMean(defs: Definitions, n: nat, alts: Alts, w: Word)
    decreases n, alts, 0
  {
    ItemsMean(defs, n, alts.items, w) || (alts.OrAlt? && AltsMean(defs, n, alts.before, w))
  }

  /** The word belongs to the language of the name: the least one that its definition allows. */
  ghost predicate Denotes(defs: Definitions, name: string, w: Word)
  {
    name in defs && exists n: nat :: AltsMean(defs, n, defs[name], w)
  }

  // ----- deeper is more -----

  lemma {:induction false} ItemDeeper(defs: Definitions, n: nat, m: nat, item: Item, w: Word)
    requires n <= m && ItemMeans(defs, n, item, w)
    ensures ItemMeans(defs, m, item, w)
    decreases n, item, 0
  {
    hide AltsMean, Times;
    match item
    case Literal(_) =>
    case Class(_, _) =>
    case Name(name) => AltsDeeper(defs, n - 1, m - 1, defs[name], w);
    case Group(alts, _) => AltsDeeper(defs, n, m, alts, w);
    case Repeat(it, op, _) =>
      var k: nat :| Allows(op, k) && Times(defs, n, it, k, w);
      TimesDeeper(defs, n, m, it, k, w);
  }

  lemma {:induction false} TimesDeeper(defs: Definitions, n: nat, m: nat, item: Item, k: nat, w: Word)
    requires n <= m && Times(defs, n, item, k, w)
    ensures Times(defs, m, item, k, w)
    decreases n, item, k + 1
  {
    hide ItemMeans;
    if k > 0 {
      var i :| 0 <= i <= |w| && ItemMeans(defs, n, item, w[..i]) && Times(defs, n, item, k - 1, w[i..]);
      ItemDeeper(defs, n, m, item, w[..i]);
      TimesDeeper(defs, n, m, item, k - 1, w[i..]);
    }
  }

  lemma {:induction false} ItemsDeeper(defs: Definitions, n: nat, m: nat, items: Items, w: Word)
    requires n <= m && ItemsMean(defs, n, items, w)
    ensures ItemsMean(defs, m, items, w)
    decreases n, items, 0
  {
    hide ItemMeans;
    if items.AndItem? {
      var i :| 0 <= i <= |w| && ItemsMean(defs, n, items.init, w[..i]) && ItemMeans(defs, n, items.last, w[i..]);
      ItemsDeeper(defs, n, m, items.init, w[..i]);
      ItemDeeper(defs, n, m, items.last, w[i..]);
    }
  }

  lemma {:induction false} AltsDeeper(defs: Definitions, n: nat, m: nat, alts: Alts, w: Word)
    requires n <= m && AltsMean(defs, n, alts, w)
    ensures AltsMean(defs, m, alts, w)
    decreases n, alts, 0
  {
    hide ItemsMean;
    if ItemsMean(defs, n, alts.items, w) {
      ItemsDeeper(defs, n, m, alts.items, w);
    } else {
      AltsDeeper(defs, n, m, alts.before, w);
    }
  }

  // ----- what the compiler emits -----

  type Ids = map<string, nat>

  function LiteralSymbols(chars: Word): Symbols
  {
    if chars == [] then Nothing
    else Then(LiteralSymbols(chars[..|chars| - 1]), Chars(false, AndRange(NoRange, One(chars[|chars| - 1]))))
  }

  /** The symbols emitted for an item; an empty class emits none. */
  function ItemSymbols(ids: Ids, item: Item): Symbols
  {
    match item
    case Literal(chars) => LiteralSymbols(chars)
    case Class(negated, ranges) => if ranges.NoRange? then Nothing else Then(Nothing, Chars(negated, ranges))
    case Name(name) => if name in ids then Then(Nothing, Ref(ids[name])) else Nothing
    case Group(_, id) => Then(Nothing, Ref(id))
    case Repeat(_, _, id) => Then(Nothing, Ref(id))
  }

  function ItemsSymbols(ids: Ids, items: Items): Symbols
  {
    match items
    case NoItem => Nothing
    case AndItem(init, item) => Concat(ItemsSymbols(ids, init), ItemSymbols(ids, item))
  }

  function AltsForm(ids: Ids, alts: Alts): Alternatives
  {
    match alts
    case OneAlt(items) => Only(ItemsSymbols(ids, items))
    case OrAlt(before, items) => Or(AltsForm(ids, before), ItemsSymbols(ids, items))
  }

  /** The rule made for a repetition of `syms`: S S' or nothing, S S' or S, S or nothing. */
  function RepeatForm(op: Repetition, syms: Symbols, id: nat): Alternatives
  {
    match op
    case Star => Or(Only(Then(syms, Ref(id))), Nothing)
    case Plus => Or(Only(Then(syms, Ref(id))), syms)
    case Optional => Or(Only(syms), Nothing)
  }

  ghost predicate HasRule(rules: Rules, id: nat, alts: Alternatives)
  {
    id < |rules| && rules[id] == RuleElements(alts)
  }

  /** The number belongs to a generated name: only those contain an underscore. */
  ghost predicate IsMade(ids: Ids, id: nat)
  {
    exists x {:trigger ids[x]} :: x in ids && '_' in x && ids[x] == id
  }

  /** The rules made for the item are there. */
  ghost predicate ItemBuilt(rules: Rules, ids: Ids, item: Item)
  {
    match item
    case Literal(_) => true
    case Class(_, _) => true
    case Name(name) => name in ids && '_' !in name
    case Group(alts, id) => IsMade(ids, id) && HasRule(rules, id, AltsForm(ids, alts)) && AltsBuilt(rules, ids, alts)
    case Repeat(it, op, id) => IsMade(ids, id) && HasRule(rules, id, RepeatForm(op, ItemSymbols(ids, it), id)) && ItemBuilt(rules, ids, it)
  }

  ghost predicate ItemsBuilt(rules: Rules, ids: Ids, items: Items)
  {
    items.AndItem? ==> ItemsBuilt(rules, ids, items.init) && ItemBuilt(rules, ids, items.last)
  }

  ghost predicate AltsBuilt(rules: Rules, ids: Ids, alts: Alts)
  {
    ItemsBuilt(rules, ids, alts.items) && (alts.OrAlt? ==> AltsBuilt(rules, ids, alts.before))
  }

  /** No class in the item is empty. */
  predicate ItemProper(item: Item)
  {
    match item
    case Literal(_) => true
    case Class(_, ranges) => ranges.AndRange?
    case Name(_) => true
    case Group(alts, _) => AltsProper(alts)
    case Repeat(it, _, _) => ItemProper(it)
  }

  predicate ItemsProper(items: Items)
  {
    items.AndItem? ==> ItemsProper(items.init) && ItemProper(items.last)
  }

  predicate AltsProper(alts: Alts)
  {
    ItemsProper(alts.items) && (alts.OrAlt? ==> AltsProper(alts.before))
  }

  /** The item and all items in it. */
  function PartsOfItem(item: Item): set<Item>
  {
    {item} + match item
      case Group(alts, _) => PartsOfAlts(alts)
      case Repeat(it, _, _) => PartsOfItem(it)
      case _ => {}
  }

  function PartsOfItems(items: Items): set<Item>
  {
    match items
    case NoItem => {}
    case AndItem(init, last) => PartsOfItems(init) + PartsOfItem(last)
  }

  function PartsOfAlts(alts: Alts): set<Item>
  {
    PartsOfItems(alts.items) + if alts.OrAlt? then PartsOfAlts(alts.before) else {}
  }

  ghost predicate NoEmptyClass(parts: set<Item>)
  {
    Class(false, NoRange) !in parts && Class(true, NoRange) !in parts
  }

  lemma {:induction false} ItemProperMeans(item: Item)
    ensures ItemProper(item) <==> NoEmptyClass(PartsOfItem(item))
  {
    match item
    case Group(alts, _) => AltsProperMeans(alts);
    case Repeat(it, _, _) => ItemProperMeans(it);
    case _ =>
  }

  lemma {:induction false} ItemsProperMeans(items: Items)
    ensures ItemsProper(items) <==> NoEmptyClass(PartsOfItems(items))
  {
    match items
    case NoItem =>
    case AndItem(init, last) => ItemsProperMeans(init); ItemProperMeans(last);
  }

  /** Alternatives are proper exactly when neither `[]` nor `[^]` is in them, at any depth. */
  lemma {:induction false} AltsProperMeans(alts: Alts)
    ensures AltsProper(alts) <==> NoEmptyClass(PartsOfAlts(alts))
  {
    ItemsProperMeans(alts.items);
    if alts.OrAlt? {
      AltsProperMeans(alts.before);
    }
  }

  // ----- emitted rules are well formed -----

  lemma {:induction false} ConcatNonEmpty(a: Symbols, b: Symbols)
    requires AllNonEmpty(a) && AllNonEmpty(b)
    ensures AllNonEmpty(Concat(a, b))
  {
    if b.Then? {
      ConcatNonEmpty(a, b.init);
    }
  }

  lemma {:induction false} LiteralNonEmpty(chars: Word)
    ensures AllNonEmpty(LiteralSymbols(chars))
  {
    if chars != [] {
      LiteralNonEmpty(chars[..|chars| - 1]);
    }
  }

  lemma ItemNonEmpty(ids: Ids, item: Item)
    ensures AllNonEmpty(ItemSymbols(ids, item))
  {
    if item.Literal? {
      LiteralNonEmpty(item.chars);
    }
  }

  lemma {:induction false} ItemsNonEmpty(ids: Ids, items: Items)
    ensures AllNonEmpty(ItemsSymbols(ids, items))
  {
    hide ItemSymbols;
    if items.AndItem? {
      ItemsNonEmpty(ids, items.init);
      ItemNonEmpty(ids, items.last);
      ConcatNonEmpty(ItemsSymbols(ids, items.init), ItemSymbols(ids, items.last));
    }
  }

  lemma {:induction false} FormWellFormed(ids: Ids, alts: Alts)
    ensures WellFormed(AltsForm(ids, alts))
  {
    hide ItemsSymbols;
    ItemsNonEmpty(ids, alts.items);
    if alts.OrAlt? {
      FormWellFormed(ids, alts.before);
    }
  }

  lemma RepeatWellFormed(op: Repetition, syms: Symbols, id: nat)
    requires AllNonEmpty(syms)
    ensures WellFormed(RepeatForm(op, syms, id))
  {}

  /** What a rule matches is what its alternatives match. */
  lemma RuleByForm(rules: Rules, n: nat, id: nat, alts: Alternatives, w: Word)
    requires HasRule(rules, id, alts) && WellFormed(alts)
    ensures RuleMatch(rules, n, id, w) <==> AlternativesMatch(rules, n, alts, w)
  {
    hide AlternativesMatch;
    DecodeRule(alts);
    assert RuleElements(alts) != [];
  }
}
