/** The text of a grammar determines its meaning; a text that is spelled but refused. */
module GrammarUnique {
  import opened GrammarText
  import opened GrammarLanguage
  import opened GrammarMeaning
  import opened GrammarEquivalence
  import opened GrammarSpelling
  import opened GrammarReading

  function PlainDefinitions(defs: Definitions): (r: Definitions)
    ensures r.Keys == defs.Keys
  {
    map x | x in defs :: PlainAlts(defs[x])
  }

  // ----- meaning does not depend on the numbers -----

  lemma {:induction false} PlainItemMeans(defs: Definitions, n: nat, item: Item, w: Word)
    ensures ItemMeans(PlainDefinitions(defs), n, PlainItem(item), w) <==> ItemMeans(defs, n, item, w)
    decreases n, item, 0
  {
    hide AltsMean, Times, PlainAlts, Allows;
    match item
    case Literal(_) =>
    case Class(_, _) =>
    case Name(name) =>
      if n > 0 && name in defs {
        PlainAltsMean(defs, n - 1, defs[name], w);
      }
    case Group(alts, _) => PlainAltsMean(defs, n, alts, w);
    case Repeat(it, op, _) =>
      forall k: nat ensures Times(PlainDefinitions(defs), n, PlainItem(it), k, w) <==> Times(defs, n, it, k, w) {
        PlainTimes(defs, n, it, k, w);
      }
      hide PlainDefinitions;
  }

  lemma {:induction false} PlainTimes(defs: Definitions, n: nat, item: Item, k: nat, w: Word)
    ensures Times(PlainDefinitions(defs), n, PlainItem(item), k, w) <==> Times(defs, n, item, k, w)
    decreases n, item, k + 1
  {
    hide ItemMeans, PlainDefinitions, PlainItem;
    if k > 0 {
      forall i {:trigger w[..i]} | 0 <= i <= |w|
        ensures ItemMeans(PlainDefinitions(defs), n, PlainItem(item), w[..i]) <==> ItemMeans(defs, n, item, w[..i])
        ensures Times(PlainDefinitions(defs), n, PlainItem(item), k - 1, w[i..]) <==> Times(defs, n, item, k - 1, w[i..])
      {
        PlainItemMeans(defs, n, item, w[..i]);
        PlainTimes(defs, n, item, k - 1, w[i..]);
      }
    }
  }

  lemma {:induction false} PlainItemsMean(defs: Definitions, n: nat, items: Items, w: Word)
    ensures ItemsMean(PlainDefinitions(defs), n, PlainItems(items), w) <==> ItemsMean(defs, n, items, w)
    decreases n, items, 0
  {
    hide ItemMeans, PlainDefinitions, PlainItem;
    if items.AndItem? {
      forall i {:trigger w[..i]} | 0 <= i <= |w|
        ensures ItemsMean(PlainDefinitions(defs), n, PlainItems(items.init), w[..i]) <==> ItemsMean(defs, n, items.init, w[..i])
        ensures ItemMeans(PlainDefinitions(defs), n, PlainItem(items.last), w[i..]) <==> ItemMeans(defs, n, items.last, w[i..])
      {
        PlainItemsMean(defs, n, items.init, w[..i]);
        PlainItemMeans(defs, n, items.last, w[i..]);
      }
    }
  }

  lemma {:induction false} PlainAltsMean(defs: Definitions, n: nat, alts: Alts, w: Word)
    ensures AltsMean(PlainDefinitions(defs), n, PlainAlts(alts), w) <==> AltsMean(defs, n, alts, w)
    decreases n, alts, 0
  {
    hide ItemsMean, PlainDefinitions, PlainItems;
    PlainItemsMean(defs, n, alts.items, w);
    if alts.OrAlt? {
      PlainAltsMean(defs, n, alts.before, w);
    }
  }

  lemma PlainDenotes(defs: Definitions, name: string, w: Word)
    ensures Denotes(PlainDefinitions(defs), name, w) <==> Denotes(defs, name, w)
  {
    hide AltsMean, PlainAlts;
    if name in defs {
      forall n: nat ensures AltsMean(PlainDefinitions(defs), n, PlainAlts(defs[name]), w) <==> AltsMean(defs, n, defs[name], w) {
        PlainAltsMean(defs, n, defs[name], w);
      }
      assert PlainDefinitions(defs)[name] == PlainAlts(defs[name]);
      hide PlainDefinitions;
    }
  }

  lemma {:induction false} PlainMeanings(ds: seq<Definition>)
    ensures Meanings(PlainGrammar(ds)) == PlainDefinitions(Meanings(ds))
  {
    hide PlainAlts;
    if ds != [] {
      PlainMeanings(ds[..|ds| - 1]);
      var ps := PlainGrammar(ds);
      assert ps[..|ps| - 1] == PlainGrammar(ds[..|ds| - 1]);
    }
  }

  /** All ways to read the text as a grammar without repeated empty items give every name the same language. */
  lemma MeaningUnique(src: string, ds: seq<Definition>, ds': seq<Definition>, name: string, w: Word)
    requires Spells(src, ds) && Spells(src, ds') && GrammarRepeats(ds) && GrammarRepeats(ds')
    ensures Denotes(Meanings(ds), name, w) <==> Denotes(Meanings(ds'), name, w)
  {
    SpelledUnique(src, ds, ds');
    hide *;
    PlainMeanings(ds);
    PlainMeanings(ds');
    PlainDenotes(Meanings(ds), name, w);
    PlainDenotes(Meanings(ds'), name, w);
  }

  // ----- a spelled text that is refused -----

  /** An empty literal, repeated: a grammar by its spelling, without an empty class, but the compiler finds nothing to repeat. */
  lemma EmptyRepeatRefused()
    ensures var src := "a::=\"\"*";
      (exists ds {:trigger Spells(src, ds)} :: Spells(src, ds) && Proper(Meanings(ds))) && !Compilable(src)
  {
    var src := "a::=\"\"*";
    ExampleSpelled(src);
    ExampleRefused(src);
    hide *;
    RefusedIsNotSpelled(src);
  }

  lemma ExampleSpelled(src: string)
    requires src == "a::=\"\"*"
    ensures exists ds {:trigger Spells(src, ds)} :: Spells(src, ds) && Proper(Meanings(ds))
  {
    var d := Definition("a", OneAlt(AndItem(NoItem, Repeat(Literal([]), Star, 0))));
    PlacesOfExample(src);
    ExampleDefinition(src, d);
    assert GrammarSpelled(src, 0, 0, []) && [] + [d] == [d] && At(src, 0) != '\0' && At(src, 7) == '\0';
    hide DefinitionSpelled, GrammarSpelled, Space, NameEnd, Proper, Meanings, At;
    MoreDefinitions(src, 0, 0, 7, [], d);
    assert Spells(src, [d]);
    ExampleProper([d]);
  }

  lemma ExampleDefinition(src: string, d: Definition)
    requires src == "a::=\"\"*" && d == Definition("a", OneAlt(AndItem(NoItem, Repeat(Literal([]), Star, 0))))
    ensures DefinitionSpelled(src, 0, 7, d)
  {
    PlacesOfExample(src);
    ItemOfExample(src, Repeat(Literal([]), Star, 0));
    hide ItemSpelled, NameEnd, Space;
    MoreItems(src, 4, 4, 7, NoItem, Repeat(Literal([]), Star, 0), false);
    hide ItemsSpelled;
    assert AltsSpelled(src, 4, 7, d.alts, false);
    assert BodySpelled(src, 4, 7, d.alts) by {
      hide AltsSpelled;
    }
    hide BodySpelled;
    assert src[0..1] == "a";
  }

  lemma ExampleProper(ds: seq<Definition>)
    requires ds == [Definition("a", OneAlt(AndItem(NoItem, Repeat(Literal([]), Star, 0))))]
    ensures Proper(Meanings(ds))
  {
    assert ds[..0] == [] && Meanings([]) == map[];
    assert Meanings(ds) == map["a" := ds[0].alts];
    assert ItemProper(Repeat(Literal([]), Star, 0)) && AltsProper(ds[0].alts);
  }

  lemma ExampleRefused(src: string)
    requires src == "a::=\"\"*"
    ensures ReadGrammar(src, Space(src, 0, true), []) == Refused
  {
    PlacesOfExample(src);
    hide NameEnd, Space, ReadChar;
    assert ReadItem(src, 4, false) == Got(Literal([]), 6) by {
      assert ReadChars(src, 5, []) == Got([], 5);
    }
    assert ReadItems(src, 6, false, AndItem(NoItem, Literal([]))) == Refused;
    hide ReadItem;
    assert ReadItems(src, 4, false, NoItem) == Refused;
    hide ReadItems;
    assert ReadAlts(src, 4, false) == Refused;
    hide ReadAlts;
    assert ReadDefinition(src, 0) == Refused;
  }

  lemma PlacesOfExample(src: string)
    requires src == "a::=\"\"*"
    ensures NameEnd(src, 0) == 1 && Space(src, 0, true) == 0 && Space(src, 1, false) == 1 && Space(src, 4, true) == 4
    ensures Space(src, 6, false) == 6 && Space(src, 7, false) == 7 && Space(src, 7, true) == 7
  {
    assert NameEnd(src, 1) == 1;
  }

  lemma ItemOfExample(src: string, item: Item)
    requires src == "a::=\"\"*" && item == Repeat(Literal([]), Star, 0)
    ensures ItemSpelled(src, 4, 7, item, false)
  {
    PlacesOfExample(src);
    assert CharsSpelled(src, 5, 5, []);
    hide Space;
    assert ItemSpelled(src, 4, 6, item.item, false);
  }
}
