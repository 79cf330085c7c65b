/** The compiler's symbol table and rules, and how they may grow. */
module GrammarState {
  import opened GrammarForm
  import opened GrammarLanguage
  import opened GrammarMeaning
  import opened GrammarEquivalence

  // ----- generated names -----

  function Digit(d: nat): char
    requires d < 10
  {
    "0123456789"[d]
  }

  function Decimal(n: nat): (s: string)
    ensures s != []
  {
    if n < 10 then [Digit(n)] else Decimal(n / 10) + [Digit(n % 10)]
  }

  lemma DigitUnique(d: nat, e: nat)
    requires d < 10 && e < 10 && Digit(d) == Digit(e)
    ensures d == e
  {}

  lemma {:induction false} DecimalUnique(m: nat, n: nat)
    requires Decimal(m) == Decimal(n)
    ensures m == n
    decreases m + n
  {
    hide Digit;
    var s, t := Decimal(m), Decimal(n);
    assert s[|s| - 1] == Digit(m % 10) && t[|t| - 1] == Digit(n % 10);
    DigitUnique(m % 10, n % 10);
    if m >= 10 && n >= 10 {
      assert s[..|s| - 1] == Decimal(m / 10) && t[..|t| - 1] == Decimal(n / 10);
      DecimalUnique(m / 10, n / 10);
    } else {
      assert m >= 10 ==> |s| > 1;
      assert n >= 10 ==> |t| > 1;
    }
  }

  /** The value of decimal digits. */
  function ValueOf(s: string): int
  {
    if s == [] then 0 else 10 * ValueOf(s[..|s| - 1]) + (s[|s| - 1] as int - '0' as int)
  }

  lemma DigitValue(d: nat)
    requires d < 10
    ensures Digit(d) as int == '0' as int + d
  {}

  /** Decimal numerals have the value of their number. */
  lemma {:induction false} DecimalValue(n: nat)
    ensures ValueOf(Decimal(n)) == n && forall i {:trigger Decimal(n)[i]} :: 0 <= i < |Decimal(n)| ==> '0' <= Decimal(n)[i] <= '9'
  {
    DigitValue(n % 10);
    hide Digit;
    if n >= 10 {
      DecimalValue(n / 10);
      assert Decimal(n)[..|Decimal(n)| - 1] == Decimal(n / 10);
    } else {
      assert Decimal(n)[..0] == [];
    }
  }

  function MadeName(base: string, n: nat): string
  {
    base + "_" + Decimal(n)
  }

  lemma MadeNameUnique(a: string, m: nat, b: string, n: nat)
    requires '_' !in a && '_' !in b && MadeName(a, m) == MadeName(b, n)
    ensures m == n
  {
    hide Decimal;
    MarkPlace(a, m);
    MarkPlace(b, n);
    DecimalUnique(m, n);
  }

  /** Where the underscore of a generated name is, and what follows it. */
  function AfterMark(s: string): string
  {
    if s == [] then [] else if s[0] == '_' then s[1..] else AfterMark(s[1..])
  }

  lemma {:induction false} MarkPlace(a: string, n: nat)
    requires '_' !in a
    ensures AfterMark(MadeName(a, n)) == Decimal(n)
    decreases |a|
  {
    hide Decimal;
    var s := MadeName(a, n);
    if a == [] {
      assert s[1..] == Decimal(n);
    } else {
      assert s[0] == a[0] && s[1..] == MadeName(a[1..], n);
      MarkPlace(a[1..], n);
    }
  }

  ghost predicate IsMadeName(x: string, n: nat)
  {
    exists base {:trigger MadeName(base, n)} :: '_' !in base && x == MadeName(base, n)
  }

  // ----- the symbol table -----

  /** A bijection onto the numbers below its size, in which an underscore marks a generated name. */
  ghost predicate ValidIds(ids: Ids)
  {
    && (forall x {:trigger ids[x]} :: x in ids ==> ids[x] < |ids| && ('_' in x ==> IsMadeName(x, ids[x])))
    && (forall x, y {:trigger ids[x], ids[y]} :: x in ids && y in ids && ids[x] == ids[y] ==> x == y)
    && forall k: nat {:trigger HasName(ids, k)} :: k < |ids| ==> HasName(ids, k)
  }

  ghost predicate HasName(ids: Ids, k: nat)
  {
    exists x {:trigger ids[x]} :: x in ids && ids[x] == k
  }

  ghost predicate Extends(ids: Ids, ids': Ids)
  {
    |ids| <= |ids'| && forall x {:trigger ids[x]} {:trigger ids'[x]} :: x in ids ==> x in ids' && ids'[x] == ids[x]
  }

  lemma AddId(ids: Ids, x: string)
    requires ValidIds(ids) && x !in ids && ('_' in x ==> IsMadeName(x, |ids|))
    ensures ValidIds(ids[x := |ids|]) && Extends(ids, ids[x := |ids|]) && |ids[x := |ids|]| == |ids| + 1
  {
    hide IsMadeName, HasName;
    var ids' := ids[x := |ids|];
    assert ids'.Keys == ids.Keys + {x};
    forall k: nat | k < |ids'| ensures HasName(ids', k) {
      assert k < |ids| ==> HasName(ids, k);
      NameAdded(ids, x, k);
    }
  }

  lemma NameAdded(ids: Ids, x: string, k: nat)
    requires x !in ids && (k == |ids| || HasName(ids, k))
    ensures HasName(ids[x := |ids|], k)
  {
    var ids' := ids[x := |ids|];
    if k == |ids| {
      assert ids'[x] == k;
    } else {
      var y :| y in ids && ids[y] == k;
      assert ids'[y] == k;
    }
  }

  /** A generated name is never taken: it ends in a number not given out before. */
  lemma MadeNameFresh(ids: Ids, base: string)
    requires ValidIds(ids) && '_' !in base
    ensures MadeName(base, |ids|) !in ids && '_' in MadeName(base, |ids|) && IsMadeName(MadeName(base, |ids|), |ids|)
  {
    var x := MadeName(base, |ids|);
    assert x[|base|] == '_';
    if x in ids {
      assert IsMadeName(x, ids[x]);
      var b :| '_' !in b && x == MadeName(b, ids[x]);
      MadeNameUnique(base, |ids|, b, ids[x]);
    }
  }

  lemma MadeBelow(ids: Ids, id: nat)
    requires ValidIds(ids) && IsMade(ids, id)
    ensures id < |ids|
  {}

  lemma NamedNotMade(ids: Ids, x: string)
    requires ValidIds(ids) && x in ids && '_' !in x
    ensures !IsMade(ids, ids[x])
  {}

  lemma MadeExtends(ids: Ids, ids': Ids, id: nat)
    requires Extends(ids, ids') && IsMade(ids, id)
    ensures IsMade(ids', id)
  {
    var x :| x in ids && '_' in x && ids[x] == id;
    assert ids'[x] == id;
  }

  // ----- rules -----

  function RuleAt(rules: Rules, id: nat): seq<Element>
  {
    if id < |rules| then rules[id] else []
  }

  /** Stores a rule, making room with empty ones. */
  function WithRule(rules: Rules, id: nat, rule: seq<Element>): (r: Rules)
    ensures |r| == Max(|rules|, id + 1)
    ensures forall k: nat {:trigger RuleAt(r, k)} :: RuleAt(r, k) == if k == id then rule else RuleAt(rules, k)
  {
    var room := if |rules| <= id then rules + seq(id + 1 - |rules|, _ => []) else rules;
    room[id := rule]
  }

  predicate SymbolBelow(sym: Symbol, n: nat)
  {
    sym.Ref? ==> sym.id < n
  }

  predicate SymbolsBelow(syms: Symbols, n: nat)
  {
    syms.Then? ==> SymbolsBelow(syms.init, n) && SymbolBelow(syms.last, n)
  }

  predicate RefsBelow(alts: Alternatives, n: nat)
  {
    SymbolsBelow(alts.syms, n) && (alts.Or? ==> RefsBelow(alts.before, n))
  }

  /** The elements of one well-formed rule whose references are below `n`. */
  ghost predicate IsRule(rule: seq<Element>, n: nat)
  {
    exists alts {:trigger RuleElements(alts)} :: rule == RuleElements(alts) && WellFormed(alts) && RefsBelow(alts, n)
  }

  ghost predicate ValidState(ids: Ids, rules: Rules)
  {
    && ValidIds(ids) && |rules| <= |ids|
    && forall k {:trigger rules[k]} :: 0 <= k < |rules| ==> rules[k] == [] || IsRule(rules[k], |ids|)
  }

  /** Parsing part of a rule adds names and rules; earlier rules stay, and of the new names exactly the generated ones have one. */
  ghost predicate Grows(ids: Ids, rules: Rules, ids': Ids, rules': Rules)
  {
    && Extends(ids, ids')
    && (forall k: nat {:trigger RuleAt(rules', k)} :: k < |ids| ==> RuleAt(rules', k) == RuleAt(rules, k))
    && forall x {:trigger ids'[x]} :: x in ids' && x !in ids ==> ('_' in x <==> RuleAt(rules', ids'[x]) != [])
  }

  lemma GrowsTransitive(ids: Ids, rules: Rules, ids1: Ids, rules1: Rules, ids2: Ids, rules2: Rules)
    requires Grows(ids, rules, ids1, rules1) && Grows(ids1, rules1, ids2, rules2) && ValidIds(ids1) && ValidIds(ids2)
    ensures Grows(ids, rules, ids2, rules2)
  {
    hide IsMadeName, HasName, RuleAt;
    forall x {:trigger ids2[x]} | x in ids2 && x !in ids ensures '_' in x <==> RuleAt(rules2, ids2[x]) != [] {
      if x in ids1 {
        KnownStays(ids1, rules1, ids2, rules2, x);
      }
    }
  }

  lemma KnownStays(ids: Ids, rules: Rules, ids': Ids, rules': Rules, x: string)
    requires Grows(ids, rules, ids', rules') && ValidIds(ids) && x in ids
    ensures x in ids' && ids'[x] == ids[x] && RuleAt(rules', ids'[x]) == RuleAt(rules, ids[x])
  {
    assert ids[x] < |ids|;
    hide IsMadeName, HasName, RuleAt;
  }

  lemma {:induction false} SymbolsBelowMore(syms: Symbols, n: nat, m: nat)
    requires SymbolsBelow(syms, n) && n <= m
    ensures SymbolsBelow(syms, m)
  {
    if syms.Then? {
      SymbolsBelowMore(syms.init, n, m);
    }
  }

  lemma {:induction false} RefsBelowMore(alts: Alternatives, n: nat, m: nat)
    requires RefsBelow(alts, n) && n <= m
    ensures RefsBelow(alts, m)
  {
    SymbolsBelowMore(alts.syms, n, m);
    if alts.Or? {
      RefsBelowMore(alts.before, n, m);
    }
  }

  lemma RuleStays(rule: seq<Element>, n: nat, m: nat)
    requires IsRule(rule, n) && n <= m
    ensures IsRule(rule, m)
  {
    var alts :| rule == RuleElements(alts) && WellFormed(alts) && RefsBelow(alts, n);
    RefsBelowMore(alts, n, m);
  }

  lemma StateWithIds(ids: Ids, rules: Rules, ids': Ids)
    requires ValidState(ids, rules) && ValidIds(ids') && |ids| <= |ids'|
    ensures ValidState(ids', rules)
  {
    hide IsRule, ValidIds;
    forall k {:trigger rules[k]} | 0 <= k < |rules| && rules[k] != [] ensures IsRule(rules[k], |ids'|) {
      RuleStays(rules[k], |ids|, |ids'|);
    }
  }

  lemma StateWithRule(ids: Ids, rules: Rules, id: nat, alts: Alternatives)
    requires ValidState(ids, rules) && id < |ids| && WellFormed(alts) && RefsBelow(alts, |ids|)
    ensures ValidState(ids, WithRule(rules, id, RuleElements(alts)))
  {
    hide ValidIds, WithRule;
    var rules' := WithRule(rules, id, RuleElements(alts));
    forall k {:trigger rules'[k]} | 0 <= k < |rules'| && rules'[k] != [] ensures IsRule(rules'[k], |ids|) {
      assert rules'[k] == RuleAt(rules', k);
    }
  }

  // ----- what was built stays built -----

  /** Rules already made for generated names are kept. */
  ghost predicate KeepsMade(ids: Ids, rules: Rules, ids': Ids, rules': Rules)
  {
    Extends(ids, ids') &&
    forall k: nat {:trigger RuleAt(rules', k)} :: IsMade(ids, k) && RuleAt(rules, k) != [] ==> RuleAt(rules', k) == RuleAt(rules, k)
  }

  lemma HasRuleKept(ids: Ids, rules: Rules, ids': Ids, rules': Rules, id: nat, alts: Alternatives)
    requires KeepsMade(ids, rules, ids', rules') && IsMade(ids, id) && HasRule(rules, id, alts)
    ensures IsMade(ids', id) && HasRule(rules', id, alts)
  {
    MadeExtends(ids, ids', id);
    hide IsMade;
    assert RuleAt(rules', id) == RuleAt(rules, id) == RuleElements(alts);
    assert RuleElements(alts) != [];
  }

  lemma {:induction false} ItemStays(ids: Ids, rules: Rules, ids': Ids, rules': Rules, item: Item)
    requires KeepsMade(ids, rules, ids', rules') && ItemBuilt(rules, ids, item)
    ensures ItemBuilt(rules', ids', item) && ItemSymbols(ids', item) == ItemSymbols(ids, item)
    decreases item
  {
    match item
    case Literal(_) =>
    case Class(_, _) =>
    case Name(name) => assert ids'[name] == ids[name];
    case Group(alts, id) =>
      hide KeepsMade, HasRule, IsMade, AltsBuilt;
      AltsStay(ids, rules, ids', rules', alts);
      HasRuleKept(ids, rules, ids', rules', id, AltsForm(ids, alts));
    case Repeat(it, op, id) =>
      hide KeepsMade, HasRule, IsMade;
      ItemStays(ids, rules, ids', rules', it);
      HasRuleKept(ids, rules, ids', rules', id, RepeatForm(op, ItemSymbols(ids, it), id));
  }

  lemma {:induction false} ItemsStay(ids: Ids, rules: Rules, ids': Ids, rules': Rules, items: Items)
    requires KeepsMade(ids, rules, ids', rules') && ItemsBuilt(rules, ids, items)
    ensures ItemsBuilt(rules', ids', items) && ItemsSymbols(ids', items) == ItemsSymbols(ids, items)
    decreases items
  {
    hide KeepsMade, ItemBuilt, ItemSymbols;
    if items.AndItem? {
      ItemsStay(ids, rules, ids', rules', items.init);
      ItemStays(ids, rules, ids', rules', items.last);
    }
  }

  lemma {:induction false} AltsStay(ids: Ids, rules: Rules, ids': Ids, rules': Rules, alts: Alts)
    requires KeepsMade(ids, rules, ids', rules') && AltsBuilt(rules, ids, alts)
    ensures AltsBuilt(rules', ids', alts) && AltsForm(ids', alts) == AltsForm(ids, alts)
    decreases alts
  {
    hide KeepsMade, ItemsBuilt, ItemsSymbols;
    ItemsStay(ids, rules, ids', rules', alts.items);
    if alts.OrAlt? {
      AltsStay(ids, rules, ids', rules', alts.before);
    }
  }

  lemma GrowsKeepsMade(ids: Ids, rules: Rules, ids': Ids, rules': Rules)
    requires ValidIds(ids) && Grows(ids, rules, ids', rules')
    ensures KeepsMade(ids, rules, ids', rules')
  {
    forall k: nat | IsMade(ids, k) ensures k < |ids| {
      MadeBelow(ids, k);
    }
    hide ValidIds, IsMade;
  }

  /** Storing a rule where there was none, or under a plain name, keeps what was made. */
  lemma StoreKeepsMade(ids: Ids, rules: Rules, id: nat, rule: seq<Element>)
    requires ValidIds(ids) && (RuleAt(rules, id) == [] || !IsMade(ids, id))
    ensures KeepsMade(ids, rules, ids, WithRule(rules, id, rule))
  {
    hide IsMade, WithRule, ValidIds;
  }

  // ----- references of what was built -----

  lemma {:induction false} ConcatBelow(a: Symbols, b: Symbols, n: nat)
    requires SymbolsBelow(a, n) && SymbolsBelow(b, n)
    ensures SymbolsBelow(Concat(a, b), n)
  {
    if b.Then? {
      ConcatBelow(a, b.init, n);
    }
  }

  lemma {:induction false} LiteralBelow(chars: Word, n: nat)
    ensures SymbolsBelow(LiteralSymbols(chars), n)
  {
    if chars != [] {
      LiteralBelow(chars[..|chars| - 1], n);
    }
  }

  lemma ItemBelow(ids: Ids, rules: Rules, item: Item)
    requires ValidIds(ids) && ItemBuilt(rules, ids, item)
    ensures SymbolsBelow(ItemSymbols(ids, item), |ids|)
  {
    match item
    case Literal(chars) => LiteralBelow(chars, |ids|);
    case Class(_, _) =>
    case Name(name) => assert ids[name] < |ids|;
    case Group(_, id) => MadeBelow(ids, id);
    case Repeat(_, _, id) => MadeBelow(ids, id);
  }

  lemma {:induction false} ItemsBelow(ids: Ids, rules: Rules, items: Items)
    requires ValidIds(ids) && ItemsBuilt(rules, ids, items)
    ensures SymbolsBelow(ItemsSymbols(ids, items), |ids|)
  {
    hide ValidIds, ItemBuilt, ItemSymbols;
    if items.AndItem? {
      ItemsBelow(ids, rules, items.init);
      ItemBelow(ids, rules, items.last);
      ConcatBelow(ItemsSymbols(ids, items.init), ItemSymbols(ids, items.last), |ids|);
    }
  }

  lemma {:induction false} AltsBelow(ids: Ids, rules: Rules, alts: Alts)
    requires ValidIds(ids) && AltsBuilt(rules, ids, alts)
    ensures RefsBelow(AltsForm(ids, alts), |ids|)
  {
    hide ValidIds, ItemsBuilt, ItemsSymbols;
    ItemsBelow(ids, rules, alts.items);
    if alts.OrAlt? {
      AltsBelow(ids, rules, alts.before);
    }
  }
}
