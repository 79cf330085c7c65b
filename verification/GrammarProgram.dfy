/** Definitions and whole grammars. */
module GrammarProgram {
  import opened GrammarText
  import opened GrammarLanguage
  import opened GrammarMeaning
  import opened GrammarEquivalence
  import opened GrammarSpelling
  import opened GrammarState
  import opened GrammarParser
  import opened GrammarReading

  // ----- one more definition -----

  lemma DefinitionKeepsMade(ids0: Ids, rules0: Rules, ids1: Ids, ids2: Ids, rules2: Rules, name: string)
    requires ValidIds(ids0) && ValidIds(ids1) && Extends(ids0, ids1) && name in ids1 && '_' !in name
    requires GrowsBut(ids1, rules0, ids2, rules2, ids1[name])
    ensures KeepsMade(ids0, rules0, ids2, rules2)
  {
    NamedNotMade(ids1, name);
    forall k: nat | IsMade(ids0, k) ensures k < |ids0| && k != ids1[name] {
      MadeBelow(ids0, k);
      MadeExtends(ids0, ids1, k);
    }
    hide IsMade, ValidIds;
  }

  /** What was emitted for another name stays. */
  lemma OtherStays(ids0: Ids, rules0: Rules, ids1: Ids, ids2: Ids, rules2: Rules, name: string, y: string, alts: Alts)
    requires ValidIds(ids0) && ValidIds(ids1) && Extends(ids0, ids1) && name in ids1 && '_' !in name
    requires GrowsBut(ids1, rules0, ids2, rules2, ids1[name])
    requires y in ids0 && y != name && HasRule(rules0, ids0[y], AltsForm(ids0, alts)) && AltsBuilt(rules0, ids0, alts)
    ensures y in ids2 && HasRule(rules2, ids2[y], AltsForm(ids2, alts)) && AltsBuilt(rules2, ids2, alts)
  {
    DefinitionKeepsMade(ids0, rules0, ids1, ids2, rules2, name);
    assert ids1[y] == ids0[y] == ids2[y] && ids1[y] < |ids1| && ids1[y] != ids1[name];
    assert RuleAt(rules2, ids2[y]) == RuleAt(rules0, ids0[y]) != [];
    hide ValidIds, KeepsMade, AltsBuilt, AltsForm, GrowsBut, Extends;
    AltsStay(ids0, rules0, ids2, rules2, alts);
  }

  /** Whether another name that has no definition has a rule stays, too. */
  lemma OtherUndefined(ids0: Ids, rules0: Rules, ids1: Ids, ids2: Ids, rules2: Rules, name: string, y: string)
    requires ValidIds(ids0) && ValidIds(ids1) && Extends(ids0, ids1) && name in ids1 && '_' !in name
    requires forall x {:trigger x in ids1} :: x in ids1 ==> x in ids0 || x == name
    requires GrowsBut(ids1, rules0, ids2, rules2, ids1[name])
    requires y in ids2 && y != name && (y in ids0 ==> ('_' in y <==> !Undefined(rules0, ids0[y])))
    ensures '_' in y <==> !Undefined(rules2, ids2[y])
  {
    if y in ids0 {
      assert ids1[y] == ids0[y] == ids2[y] && ids1[y] < |ids1| && ids1[y] != ids1[name];
      assert RuleAt(rules2, ids2[y]) == RuleAt(rules0, ids0[y]);
    } else {
      assert '_' in y <==> RuleAt(rules2, ids2[y]) != [];
    }
  }

  lemma NameKept(ids1: Ids, rules1: Rules, ids2: Ids, rules2: Rules, name: string)
    requires name in ids1 && GrowsBut(ids1, rules1, ids2, rules2, ids1[name])
    ensures name in ids2 && ids2[name] == ids1[name]
  {
    hide RuleAt;
  }

  lemma EmittedAfter(
    ids0: Ids, rules0: Rules, ids1: Ids, ids2: Ids, rules2: Rules, defs: Definitions, name: string, alts: Alts)
    requires ValidState(ids0, rules0) && ValidState(ids1, rules0) && Extends(ids0, ids1)
    requires forall x {:trigger x in ids1} :: x in ids1 ==> x in ids0 || x == name
    requires Emitted(rules0, ids0, defs) && name in ids1 && '_' !in name
    requires GrowsBut(ids1, rules0, ids2, rules2, ids1[name])
    requires AltsBuilt(rules2, ids2, alts) && HasRule(rules2, ids1[name], AltsForm(ids2, alts))
    ensures Emitted(rules2, ids2, defs[name := alts])
  {
    hide ValidIds, AltsBuilt, AltsForm, HasRule, Undefined, Extends, GrowsBut, IsRule, RuleAt;
    var defs' := defs[name := alts];
    NameKept(ids1, rules0, ids2, rules2, name);
    forall y {:trigger defs'[y]} | y in defs'
      ensures y in ids2 && HasRule(rules2, ids2[y], AltsForm(ids2, defs'[y])) && AltsBuilt(rules2, ids2, defs'[y])
    {
      if y != name {
        assert defs'[y] == defs[y];
        OtherStays(ids0, rules0, ids1, ids2, rules2, name, y, defs[y]);
      }
    }
    forall y {:trigger ids2[y]} | y in ids2 && y !in defs' ensures '_' in y <==> !Undefined(rules2, ids2[y]) {
      assert y in ids0 ==> ('_' in y <==> !Undefined(rules0, ids0[y]));
      OtherUndefined(ids0, rules0, ids1, ids2, rules2, name, y);
    }
  }

  /** One definition. */
  method ParseRule(state: ParseState, src: string, start: nat, ghost defs: Definitions)
    returns (ok: bool, pos: nat, ghost d: Definition)
    requires state.Valid() && start <= |src| && Emitted(state.rules, state.symbolIds, defs)
    modifies state
    ensures ok ==> state.Valid() && Emitted(state.rules, state.symbolIds, defs[d.name := d.alts])
    ensures ok ==> start < pos <= |src| && DefinitionSpelled(src, start, pos, d)
    ensures ReadDefinition(src, start) == if ok then Got(PlainDefinition(d), pos) else Refused
  {
    hide ReadAlts, ValidState, Emitted, Grows, GrowsBut, AltsBuilt, AltsForm, AltsSpelled, HasRule, IsMade, ValidIds, EndsSequence, DefinitionSpelled, Space, LineEnd, Extends, RuleAt;
    ghost var ids0, rules0 := state.symbolIds, state.rules;
    d := Definition([], OneAlt(NoItem));
    var nameEnd;
    ok, nameEnd := ParseName(src, start);
    pos := nameEnd;
    if !ok {
      return;
    }
    NameIsPlain(src, start);
    pos := ParseSpace(src, nameEnd, false);
    var name := src[start..nameEnd];
    var ruleId := state.GetSymbolId(name);
    ghost var ids1 := state.symbolIds;
    NamedIsPlain(ids1, state.rules, name);
    if !(At(src, pos) == ':' && At(src, pos + 1) == ':' && At(src, pos + 2) == '=') {
      return false, pos, d;
    }
    pos := ParseSpace(src, pos + 3, true);
    ghost var alts;
    ok, pos, alts := state.ParseAlternates(src, pos, name, ruleId, false);
    if !ok {
      return;
    }
    EmittedAfter(ids0, rules0, ids1, state.symbolIds, state.rules, defs, name, alts);
    d := Definition(name, alts);
    ghost var end := pos;
    ok, pos := ParseLineEnd(src, pos);
    if ok {
      DefinitionParts(src, start, nameEnd, end, d);
    }
  }

  method ParseLineEnd(src: string, end: nat) returns (ok: bool, pos: nat)
    requires end <= |src|
    ensures ok <==> At(src, end) == '\r' || At(src, end) == '\n' || At(src, end) == '\0'
    ensures ok ==> end <= pos <= |src| && pos == Space(src, LineEnd(src, end), true)
  {
    hide Space;
    pos := end;
    if At(src, pos) == '\r' {
      pos := if At(src, pos + 1) == '\n' then pos + 2 else pos + 1;
    } else if At(src, pos) == '\n' {
      pos := pos + 1;
    } else if At(src, pos) != '\0' {
      return false, pos;
    }
    pos := ParseSpace(src, pos, true);
    ok := true;
  }

  lemma DefinitionParts(src: string, p: nat, nameEnd: nat, e: nat, d: Definition)
    requires p < nameEnd <= |src| && nameEnd == NameEnd(src, p) && d.name == src[p..nameEnd]
    requires var m := Space(src, nameEnd, false);
      && At(src, m) == ':' && At(src, m + 1) == ':' && At(src, m + 2) == '='
      && AltsSpelled(src, Space(src, m + 3, true), e, d.alts, false)
    requires At(src, e) == '\r' || At(src, e) == '\n' || At(src, e) == '\0'
    ensures DefinitionSpelled(src, p, Space(src, LineEnd(src, e), true), d)
  {
    hide AltsSpelled, Space, At, LineEnd, NameEnd;
    var m := Space(src, nameEnd, false);
    assert BodySpelled(src, Space(src, m + 3, true), Space(src, LineEnd(src, e), true), d.alts);
  }

  lemma NamedIsPlain(ids: Ids, rules: Rules, name: string)
    requires ValidState(ids, rules) && name in ids && '_' !in name
    ensures !IsMade(ids, ids[name])
  {
    hide IsMade, IsRule;
    assert ValidIds(ids);
    NamedNotMade(ids, name);
  }

  /** The rules derive what the text means, name by name. */
  ghost predicate MeansTheSame(rules: Rules, ids: Ids, defs: Definitions)
  {
    forall name, w {:trigger Denotes(defs, name, w)} :: name in ids && '_' !in name ==>
      (Derives(rules, ids[name], w) <==> Denotes(defs, name, w))
  }

  lemma EmittedMeansTheSame(rules: Rules, ids: Ids, defs: Definitions)
    requires Emitted(rules, ids, defs) && Proper(defs)
    ensures MeansTheSame(rules, ids, defs)
  {
    hide Emitted, Proper, Derives, Denotes;
    forall name, w {:trigger Denotes(defs, name, w)} | name in ids && '_' !in name
      ensures Derives(rules, ids[name], w) <==> Denotes(defs, name, w)
    {
      CompilingPreservesMeaning(rules, ids, defs, name, w);
    }
  }

  /** The number belongs to a name that is mentioned but never defined. */
  ghost predicate OnlyMentioned(ids: Ids, defs: Definitions, k: nat)
  {
    exists x {:trigger ids[x]} :: x in ids && ids[x] == k && '_' !in x && x !in defs
  }

  /** A rule is missing exactly where a name was mentioned but never defined. */
  lemma MissingRules(rules: Rules, ids: Ids, defs: Definitions)
    requires ValidState(ids, rules) && Emitted(rules, ids, defs)
    ensures forall k: nat {:trigger rules[k]} :: k < |rules| ==> (rules[k] == [] <==> OnlyMentioned(ids, defs, k))
  {
    hide IsRule, IsMadeName, AltsForm, AltsBuilt;
    forall k: nat {:trigger rules[k]} | k < |rules| ensures rules[k] == [] <==> OnlyMentioned(ids, defs, k) {
      assert HasName(ids, k);
      var x :| x in ids && ids[x] == k;
      if x in defs {
        assert HasRule(rules, ids[x], AltsForm(ids, defs[x]));
      }
    }
  }

  /** What was read up to the end of the text. */
  lemma ReadIsSpelled(src: string, end: nat, ds: seq<Definition>)
    requires end <= |src| && At(src, end) == '\0' && GrammarSpelled(src, Space(src, 0, true), end, ds)
    requires ReadGrammar(src, Space(src, 0, true), []) == ReadGrammar(src, end, PlainGrammar(ds))
    ensures Spells(src, ds) && GrammarRepeats(ds) && Compilable(src)
  {
    PlainGrammarRepeats(ds);
    assert GrammarRepeats([]);
    assert Spells(src, ds);
    hide GrammarSpelled, Space, GrammarRepeats;
  }

  /**
   Compiles exactly the texts that spell a grammar in which no empty literal or class is repeated. Otherwise the state
   is empty; on success it holds rules for the definitions that the text spells, the last one for each name.
   */
  method Parse(src: string) returns (state: ParseState, ghost ok: bool, ghost ds: seq<Definition>)
    ensures fresh(state) && state.Valid()
    ensures ok <==> Compilable(src)
    ensures !ok ==> state.symbolIds == map[] && state.rules == []
    ensures ok ==> Spells(src, ds) && GrammarRepeats(ds)
    ensures ok ==> Emitted(state.rules, state.symbolIds, Meanings(ds))
    ensures ok ==> forall k: nat {:trigger state.rules[k]} :: k < |state.rules| ==>
      (state.rules[k] == [] <==> OnlyMentioned(state.symbolIds, Meanings(ds), k))
    ensures ok && Proper(Meanings(ds)) ==> MeansTheSame(state.rules, state.symbolIds, Meanings(ds))
  {
    assert GrammarSpelled(src, Space(src, 0, true), Space(src, 0, true), []) && Meanings([]) == map[];
    assert PlainGrammar([]) == [];
    hide ValidState, Emitted, Proper, MeansTheSame, DefinitionSpelled, GrammarSpelled, Meanings, ReadDefinition, PlainDefinition,
      Spells, Compilable, OnlyMentioned, GrammarRepeats, Space;
    state := new ParseState();
    EmptyState();
    ds := [];
    ghost var first := Space(src, 0, true);
    var pos := ParseSpace(src, 0, true);
    while At(src, pos) != '\0'
      invariant fresh(state) && state.Valid() && pos <= |src| && GrammarSpelled(src, first, pos, ds)
      invariant Emitted(state.rules, state.symbolIds, Meanings(ds))
      invariant ReadGrammar(src, first, []) == ReadGrammar(src, pos, PlainGrammar(ds))
      decreases |src| - pos
    {
      ghost var d, before := Definition([], OneAlt(NoItem)), pos;
      var good;
      good, pos, d := ParseRule(state, src, pos, Meanings(ds));
      if !good {
        RefusedIsNotSpelled(src);
        state := new ParseState();
        ok := false;
        return;
      }
      MoreDefinitions(src, first, before, pos, ds, d);
      assert (ds + [d])[..|ds|] == ds;
      ds := ds + [d];
    }
    ReadIsSpelled(src, pos, ds);
    MissingRules(state.rules, state.symbolIds, Meanings(ds));
    if Proper(Meanings(ds)) {
      EmittedMeansTheSame(state.rules, state.symbolIds, Meanings(ds));
    }
    ok := true;
  }

  lemma EmptyState()
    ensures ValidState(map[], []) && Emitted([], map[], map[])
  {}
}
