/** The text of a grammar determines what it spells, but for the numbers of generated rules. */
module GrammarReading {
  import opened GrammarText
  import opened GrammarForm
  import opened GrammarLanguage
  import opened GrammarMeaning
  import opened GrammarSpelling

  datatype Outcome<T> = Got(value: T, next: nat) | Refused

  // ----- numbers erased -----

  function PlainItem(item: Item): Item
  {
    match item
    case Literal(_) => item
    case Class(_, _) => item
    case Name(_) => item
    case Group(alts, _) => Group(PlainAlts(alts), 0)
    case Repeat(it, op, _) => Repeat(PlainItem(it), op, 0)
  }

  function PlainItems(items: Items): Items
  {
    match items
    case NoItem => NoItem
    case AndItem(init, item) => AndItem(PlainItems(init), PlainItem(item))
  }

  function PlainAlts(alts: Alts): Alts
  {
    match alts
    case OneAlt(items) => OneAlt(PlainItems(items))
    case OrAlt(before, items) => OrAlt(PlainAlts(before), PlainItems(items))
  }

  function PlainDefinition(d: Definition): Definition
  {
    Definition(d.name, PlainAlts(d.alts))
  }

  function PlainGrammar(ds: seq<Definition>): seq<Definition>
  {
    if ds == [] then [] else PlainGrammar(ds[..|ds| - 1]) + [PlainDefinition(ds[|ds| - 1])]
  }

  // ----- what may be repeated -----

  /** The item emits an element: an empty literal or class does not. */
  predicate Emits(item: Item)
  {
    match item
    case Literal(chars) => chars != []
    case Class(_, ranges) => ranges.AndRange?
    case _ => true
  }

  /** Nothing that emits no element is repeated. */
  predicate ItemRepeats(item: Item)
  {
    match item
    case Literal(_) => true
    case Class(_, _) => true
    case Name(_) => true
    case Group(alts, _) => AltsRepeat(alts)
    case Repeat(it, _, _) => Emits(it) && ItemRepeats(it)
  }

  predicate ItemsRepeat(items: Items)
  {
    items.AndItem? ==> ItemsRepeat(items.init) && ItemRepeats(items.last)
  }

  predicate AltsRepeat(alts: Alts)
  {
    ItemsRepeat(alts.items) && (alts.OrAlt? ==> AltsRepeat(alts.before))
  }

  predicate GrammarRepeats(ds: seq<Definition>)
  {
    ds == [] || (GrammarRepeats(ds[..|ds| - 1]) && AltsRepeat(ds[|ds| - 1].alts))
  }

  // ----- reading -----

  function ReadChars(src: string, p: nat, chars: Word): (r: Outcome<Word>)
    ensures r.Got? ==> p <= r.next < |src|
    decreases |src| - p
  {
    if At(src, p) == '"' then Got(chars, p)
    else match ReadChar(src, p)
      case Unreadable => Refused
      case Read(c, next) => ReadChars(src, next, chars + [c])
  }

  function ReadRange(src: string, p: nat): (r: Outcome<Range>)
    ensures r.Got? ==> p < r.next <= |src|
  {
    match ReadChar(src, p)
    case Unreadable => Refused
    case Read(lo, next) =>
      if At(src, next) == '-' && At(src, next + 1) != ']' then
        match ReadChar(src, next + 1)
        case Unreadable => Refused
        case Read(hi, end) => Got(Span(lo, hi), end)
      else Got(One(lo), next)
  }

  function ReadRanges(src: string, p: nat, ranges: Ranges): (r: Outcome<Ranges>)
    ensures r.Got? ==> p <= r.next < |src|
    decreases |src| - p
  {
    if At(src, p) == ']' then Got(ranges, p)
    else match ReadRange(src, p)
      case Refused => Refused
      case Got(range, next) => ReadRanges(src, next, AndRange(ranges, range))
  }

  predicate IsSign(c: char)
  {
    c == '*' || c == '+' || c == '?'
  }

  function SignOf(c: char): Repetition
  {
    if c == '*' then Star else if c == '+' then Plus else Optional
  }

  function RepeatedLast(items: Items, op: Repetition): (r: Items)
    requires items.AndItem? && Emits(items.last)
    ensures ItemsRepeat(items) ==> ItemsRepeat(r)
  {
    AndItem(items.init, Repeat(items.last, op, 0))
  }

  /** One item that is not a repetition. */
  function ReadItem(src: string, p: nat, nested: bool): (r: Outcome<Item>)
    ensures r.Got? ==> p < r.next <= |src| && ItemRepeats(r.value)
    decreases |src| - p, 1
  {
    var c := At(src, p);
    if c == '"' then
      match ReadChars(src, p + 1, [])
      case Refused => Refused
      case Got(chars, e) => Got(Literal(chars), Space(src, e + 1, nested))
    else if c == '[' then
      var negated := At(src, p + 1) == '^';
      match ReadRanges(src, if negated then p + 2 else p + 1, NoRange)
      case Refused => Refused
      case Got(ranges, e) => Got(Class(negated, ranges), Space(src, e + 1, nested))
    else if IsWordChar(c) then Got(Name(src[p..NameEnd(src, p)]), Space(src, NameEnd(src, p), nested))
    else if c == '(' then
      match ReadAlts(src, Space(src, p + 1, true), true)
      case Refused => Refused
      case Got(alts, e) => if At(src, e) == ')' then Got(Group(alts, 0), Space(src, e + 1, nested)) else Refused
    else Refused
  }

  /** More items after those read so far; a sign repeats the last one. */
  function ReadItems(src: string, p: nat, nested: bool, items: Items): (r: Outcome<Items>)
    requires p <= |src|
    ensures r.Got? ==> p <= r.next <= |src| && (ItemsRepeat(items) ==> ItemsRepeat(r.value)) && EndsSequence(At(src, r.next))
    decreases |src| - p, 2
  {
    if EndsSequence(At(src, p)) then Got(items, p)
    else if IsSign(At(src, p)) then
      if items.AndItem? && Emits(items.last) then
        ReadItems(src, Space(src, p + 1, nested), nested, RepeatedLast(items, SignOf(At(src, p))))
      else Refused
    else match ReadItem(src, p, nested)
      case Refused => Refused
      case Got(item, next) => ReadItems(src, next, nested, AndItem(items, item))
  }

  function ReadAlts(src: string, p: nat, nested: bool): (r: Outcome<Alts>)
    requires p <= |src|
    ensures r.Got? ==> p <= r.next <= |src| && AltsRepeat(r.value)
    decreases |src| - p, 4
  {
    match ReadItems(src, p, nested, NoItem)
    case Refused => Refused
    case Got(items, e) => MoreReadAlts(src, e, nested, OneAlt(items))
  }

  function MoreReadAlts(src: string, p: nat, nested: bool, alts: Alts): (r: Outcome<Alts>)
    requires p <= |src|
    ensures r.Got? ==> p <= r.next <= |src| && (AltsRepeat(alts) ==> AltsRepeat(r.value))
    decreases |src| - p, 3
  {
    if At(src, p) == '|' then
      match ReadItems(src, Space(src, p + 1, true), nested, NoItem)
      case Refused => Refused
      case Got(items, e) => MoreReadAlts(src, e, nested, OrAlt(alts, items))
    else Got(alts, p)
  }

  function ReadDefinition(src: string, p: nat): (r: Outcome<Definition>)
    requires p <= |src|
    ensures r.Got? ==> p < r.next <= |src| && AltsRepeat(r.value.alts)
  {
    var nameEnd := NameEnd(src, p);
    var m := Space(src, nameEnd, false);
    if nameEnd == p || !(At(src, m) == ':' && At(src, m + 1) == ':' && At(src, m + 2) == '=') then Refused
    else match ReadAlts(src, Space(src, m + 3, true), false)
      case Refused => Refused
      case Got(alts, e) =>
        if At(src, e) == '\r' || At(src, e) == '\n' || At(src, e) == '\0' then
          Got(Definition(src[p..nameEnd], alts), Space(src, LineEnd(src, e), true))
        else Refused
  }

  function ReadGrammar(src: string, p: nat, ds: seq<Definition>): (r: Outcome<seq<Definition>>)
    requires p <= |src|
    ensures r.Got? ==> GrammarRepeats(ds) ==> GrammarRepeats(r.value)
    decreases |src| - p
  {
    if At(src, p) == '\0' then Got(ds, p)
    else match ReadDefinition(src, p)
      case Refused => Refused
      case Got(d, next) =>
        assert (ds + [d])[..|ds|] == ds;
        ReadGrammar(src, next, ds + [d])
  }

  // ----- what is spelled is read -----

  lemma {:induction false} CharsRead(src: string, p: nat, q: nat, chars: Word)
    requires CharsSpelled(src, p, q, chars)
    ensures ReadChars(src, p, []) == ReadChars(src, q, chars)
    decreases |chars|
  {
    hide ReadChar;
    if chars != [] {
      var init, c := chars[..|chars| - 1], chars[|chars| - 1];
      var m: nat :| CharsSpelled(src, p, m, init) && At(src, m) != '"' && ReadChar(src, m) == Read(c, q);
      CharsRead(src, p, m, init);
      assert init + [c] == chars;
    }
  }

  lemma RangeRead(src: string, p: nat, q: nat, r: Range)
    requires RangeSpelled(src, p, q, r)
    ensures ReadRange(src, p) == Got(r, q)
  {
    hide ReadChar;
  }

  lemma {:induction false} RangesRead(src: string, p: nat, q: nat, ranges: Ranges)
    requires RangesSpelled(src, p, q, ranges)
    ensures ReadRanges(src, p, NoRange) == ReadRanges(src, q, ranges)
    decreases ranges
  {
    hide RangeSpelled, ReadRange;
    if ranges.AndRange? {
      var m: nat :| RangesSpelled(src, p, m, ranges.rest) && At(src, m) != ']' && RangeSpelled(src, m, q, ranges.last);
      RangesRead(src, p, m, ranges.rest);
      RangeRead(src, m, q, ranges.last);
    }
  }

  lemma SignIsRead(op: Repetition)
    ensures IsSign(Sign(op)) && !EndsSequence(Sign(op)) && SignOf(Sign(op)) == op
  {}

  lemma EmitsPlain(item: Item)
    ensures Emits(PlainItem(item)) <==> Emits(item)
  {}

  lemma LiteralRead(src: string, p: nat, q: nat, item: Item, nested: bool)
    requires item.Literal? && ItemSpelled(src, p, q, item, nested)
    ensures ReadItem(src, p, nested) == Got(item, q)
  {
    hide Space, CharsSpelled, ReadChars;
    var e: nat :| CharsSpelled(src, p + 1, e, item.chars) && At(src, e) == '"' && q == Space(src, e + 1, nested);
    CharsRead(src, p + 1, e, item.chars);
    CharsEnd(src, e, item.chars);
  }

  lemma CharsEnd(src: string, e: nat, chars: Word)
    requires At(src, e) == '"'
    ensures ReadChars(src, e, chars) == Got(chars, e)
  {}

  lemma ClassRead(src: string, p: nat, q: nat, item: Item, nested: bool)
    requires item.Class? && ItemSpelled(src, p, q, item, nested)
    ensures ReadItem(src, p, nested) == Got(item, q)
  {
    hide Space, RangesSpelled, ReadRanges;
    var first := if item.negated then p + 2 else p + 1;
    var e: nat :| RangesSpelled(src, first, e, item.ranges) && At(src, e) == ']' && q == Space(src, e + 1, nested);
    RangesRead(src, first, e, item.ranges);
    RangesEnd(src, e, item.ranges);
  }

  lemma RangesEnd(src: string, e: nat, ranges: Ranges)
    requires At(src, e) == ']'
    ensures ReadRanges(src, e, ranges) == Got(ranges, e)
  {}

  lemma NameRead(src: string, p: nat, q: nat, item: Item, nested: bool)
    requires item.Name? && ItemSpelled(src, p, q, item, nested)
    ensures ReadItem(src, p, nested) == Got(item, q)
  {
    hide Space;
  }

  lemma {:induction false} GroupRead(src: string, p: nat, q: nat, item: Item, nested: bool)
    requires item.Group? && ItemSpelled(src, p, q, item, nested) && ItemRepeats(item)
    ensures ReadItem(src, p, nested) == Got(PlainItem(item), q)
    decreases item, 0
  {
    assert EndsSequence(')');
    hide Space, AltsSpelled, ReadAlts, AltsRepeat, EndsSequence;
    var first := Space(src, p + 1, true);
    var e: nat :| AltsSpelled(src, first, e, item.alts, true) && At(src, e) == ')' && q == Space(src, e + 1, nested);
    AltsRead(src, first, e, item.alts, true);
  }

  /** A spelled item is read after whatever was read before it. */
  lemma {:induction false} ItemRead(src: string, p: nat, q: nat, item: Item, nested: bool, before: Items)
    requires p <= |src| && ItemSpelled(src, p, q, item, nested) && ItemRepeats(item)
    ensures q <= |src| && ReadItems(src, p, nested, before) == ReadItems(src, q, nested, AndItem(before, PlainItem(item)))
    decreases item, 1
  {
    match item
    case Literal(_) => LiteralRead(src, p, q, item, nested);
    case Class(_, _) => ClassRead(src, p, q, item, nested);
    case Name(_) => NameRead(src, p, q, item, nested);
    case Group(_, _) => GroupRead(src, p, q, item, nested);
    case Repeat(it, op, _) => RepeatRead(src, p, q, item, nested, before);
  }

  lemma {:induction false} RepeatRead(src: string, p: nat, q: nat, item: Item, nested: bool, before: Items)
    requires p <= |src| && item.Repeat? && ItemSpelled(src, p, q, item, nested) && ItemRepeats(item)
    ensures q <= |src| && ReadItems(src, p, nested, before) == ReadItems(src, q, nested, AndItem(before, PlainItem(item)))
    decreases item, 0
  {
    hide Space, Emits, IsSign, SignOf, EndsSequence;
    var m: nat :| ItemSpelled(src, p, m, item.item, nested) && At(src, m) == Sign(item.op) && q == Space(src, m + 1, nested);
    ItemRead(src, p, m, item.item, nested, before);
    SignIsRead(item.op);
    EmitsPlain(item.item);
  }

  lemma {:induction false} ItemsRead(src: string, p: nat, q: nat, items: Items, nested: bool)
    requires p <= |src| && ItemsSpelled(src, p, q, items, nested) && ItemsRepeat(items)
    ensures q <= |src| && ReadItems(src, p, nested, NoItem) == ReadItems(src, q, nested, PlainItems(items))
    decreases items, 0
  {
    hide ItemSpelled, ReadItems;
    if items.AndItem? {
      var m: nat :| ItemsSpelled(src, p, m, items.init, nested) && ItemSpelled(src, m, q, items.last, nested);
      ItemsRead(src, p, m, items.init, nested);
      ItemRead(src, m, q, items.last, nested, PlainItems(items.init));
    }
  }

  /** A spelled sequence that ends is read to its end. */
  lemma {:induction false} SequenceRead(src: string, p: nat, q: nat, items: Items, nested: bool)
    requires p <= |src| && ItemsSpelled(src, p, q, items, nested) && ItemsRepeat(items) && EndsSequence(At(src, q))
    ensures q <= |src| && ReadItems(src, p, nested, NoItem) == Got(PlainItems(items), q)
    decreases items, 1
  {
    hide ItemsSpelled, EndsSequence;
    ItemsRead(src, p, q, items, nested);
  }

  lemma {:induction false} AltsMoreRead(src: string, p: nat, q: nat, alts: Alts, nested: bool)
    requires p <= |src| && AltsSpelled(src, p, q, alts, nested) && AltsRepeat(alts) && EndsSequence(At(src, q))
    ensures q <= |src| && ReadAlts(src, p, nested) == MoreReadAlts(src, q, nested, PlainAlts(alts))
    decreases alts, 0
  {
    hide ItemsSpelled, ReadItems, Space, ItemsRepeat;
    match alts
    case OneAlt(items) =>
      SequenceRead(src, p, q, items, nested);
    case OrAlt(before, items) =>
      var m: nat :| AltsSpelled(src, p, m, before, nested) && At(src, m) == '|' && ItemsSpelled(src, Space(src, m + 1, true), q, items, nested);
      AltsMoreRead(src, p, m, before, nested);
      SequenceRead(src, Space(src, m + 1, true), q, items, nested);
  }

  lemma {:induction false} AltsRead(src: string, p: nat, q: nat, alts: Alts, nested: bool)
    requires p <= |src| && AltsSpelled(src, p, q, alts, nested) && AltsRepeat(alts) && EndsSequence(At(src, q)) && At(src, q) != '|'
    ensures q <= |src| && ReadAlts(src, p, nested) == Got(PlainAlts(alts), q)
    decreases alts, 1
  {
    hide AltsSpelled, EndsSequence, ReadAlts;
    AltsMoreRead(src, p, q, alts, nested);
  }

  lemma DefinitionRead(src: string, p: nat, q: nat, d: Definition)
    requires p <= |src| && DefinitionSpelled(src, p, q, d) && AltsRepeat(d.alts)
    ensures q <= |src| && ReadDefinition(src, p) == Got(PlainDefinition(d), q)
  {
    hide AltsSpelled, ReadAlts, Space, AltsRepeat;
    var first := Space(src, Space(src, NameEnd(src, p), false) + 3, true);
    var e: nat :| AltsSpelled(src, first, e, d.alts, false)
      && (At(src, e) == '\r' || At(src, e) == '\n' || At(src, e) == '\0') && q == Space(src, LineEnd(src, e), true);
    AltsRead(src, first, e, d.alts, false);
  }

  lemma {:induction false} GrammarRead(src: string, p: nat, q: nat, ds: seq<Definition>)
    requires p <= |src| && GrammarSpelled(src, p, q, ds) && GrammarRepeats(ds)
    ensures q <= |src| && ReadGrammar(src, p, []) == ReadGrammar(src, q, PlainGrammar(ds))
    decreases |ds|
  {
    hide DefinitionSpelled, ReadDefinition, AltsRepeat, PlainDefinition;
    if ds != [] {
      var init, d := ds[..|ds| - 1], ds[|ds| - 1];
      var m: nat :| GrammarSpelled(src, p, m, init) && At(src, m) != '\0' && DefinitionSpelled(src, m, q, d);
      GrammarRead(src, p, m, init);
      DefinitionRead(src, m, q, d);
    }
  }

  // ----- what is read determines what is spelled -----

  lemma {:induction false} PlainItemRepeats(item: Item)
    ensures ItemRepeats(PlainItem(item)) <==> ItemRepeats(item)
    decreases item, 0
  {
    match item
    case Literal(_) =>
    case Class(_, _) =>
    case Name(_) =>
    case Group(alts, _) => PlainAltsRepeat(alts);
    case Repeat(it, _, _) =>
      EmitsPlain(it);
      PlainItemRepeats(it);
  }

  lemma {:induction false} PlainItemsRepeat(items: Items)
    ensures ItemsRepeat(PlainItems(items)) <==> ItemsRepeat(items)
    decreases items, 0
  {
    hide ItemRepeats, PlainItem;
    if items.AndItem? {
      PlainItemsRepeat(items.init);
      PlainItemRepeats(items.last);
    }
  }

  lemma {:induction false} PlainAltsRepeat(alts: Alts)
    ensures AltsRepeat(PlainAlts(alts)) <==> AltsRepeat(alts)
    decreases alts, 0
  {
    hide ItemsRepeat, PlainItems;
    PlainItemsRepeat(alts.items);
    if alts.OrAlt? {
      PlainAltsRepeat(alts.before);
    }
  }

  lemma {:induction false} PlainGrammarRepeats(ds: seq<Definition>)
    ensures GrammarRepeats(PlainGrammar(ds)) <==> GrammarRepeats(ds)
  {
    hide AltsRepeat, PlainAlts;
    if ds != [] {
      PlainGrammarRepeats(ds[..|ds| - 1]);
      PlainAltsRepeat(ds[|ds| - 1].alts);
      var ps := PlainGrammar(ds);
      assert ps[..|ps| - 1] == PlainGrammar(ds[..|ds| - 1]);
    }
  }

  /** The whole text spells the definitions. */
  ghost predicate Spells(src: string, ds: seq<Definition>)
  {
    exists end: nat {:trigger GrammarSpelled(src, Space(src, 0, true), end, ds)} ::
      GrammarSpelled(src, Space(src, 0, true), end, ds) && At(src, end) == '\0'
  }

  lemma SpelledIsRead(src: string, ds: seq<Definition>)
    requires Spells(src, ds) && GrammarRepeats(ds)
    ensures var r := ReadGrammar(src, Space(src, 0, true), []); r.Got? && r.value == PlainGrammar(ds)
  {
    hide GrammarSpelled;
    var end: nat :| GrammarSpelled(src, Space(src, 0, true), end, ds) && At(src, end) == '\0';
    GrammarRead(src, Space(src, 0, true), end, ds);
  }

  /** A text spells at most one such grammar, but for the numbers of generated rules. */
  lemma SpelledUnique(src: string, ds: seq<Definition>, ds': seq<Definition>)
    requires Spells(src, ds) && Spells(src, ds') && GrammarRepeats(ds) && GrammarRepeats(ds')
    ensures PlainGrammar(ds) == PlainGrammar(ds')
  {
    SpelledIsRead(src, ds);
    SpelledIsRead(src, ds');
  }

  /** The text spells a grammar in which nothing that emits no element is repeated. */
  ghost predicate Compilable(src: string)
  {
    exists ds {:trigger Spells(src, ds)} :: Spells(src, ds) && GrammarRepeats(ds)
  }

  lemma RefusedIsNotSpelled(src: string)
    requires ReadGrammar(src, Space(src, 0, true), []) == Refused
    ensures !Compilable(src)
  {
    hide Spells, GrammarRepeats, ReadGrammar;
    forall ds {:trigger Spells(src, ds)} | Spells(src, ds) && GrammarRepeats(ds) ensures false {
      SpelledIsRead(src, ds);
    }
  }
}
