/** How the text of a grammar spells items, alternatives and definitions. */
module GrammarSpelling {
  import opened GrammarText
  import opened GrammarForm
  import opened GrammarLanguage
  import opened GrammarMeaning

  /** Characters up to, not including, a closing quote. */
  ghost predicate CharsSpelled(src: string, p: nat, q: nat, chars: Word)
    decreases |chars|
  {
    if chars == [] then p == q
    else exists m: nat {:trigger CharsSpelled(src, p, m, chars[..|chars| - 1])} ::
      && CharsSpelled(src, p, m, chars[..|chars| - 1])
      && At(src, m) != '"' && ReadChar(src, m) == Read(chars[|chars| - 1], q)
  }

  /** One character, or two joined by a hyphen that does not end the class. */
  ghost predicate RangeSpelled(src: string, p: nat, q: nat, r: Range)
  {
    match ReadChar(src, p)
    case Unreadable => false
    case Read(lo, next) =>
      if At(src, next) == '-' && At(src, next + 1) != ']' then
        ReadChar(src, next + 1).Read? && r == Span(lo, ReadChar(src, next + 1).value) && q == ReadChar(src, next + 1).next
      else r == One(lo) && q == next
  }

  ghost predicate RangesSpelled(src: string, p: nat, q: nat, ranges: Ranges)
    decreases ranges
  {
    match ranges
    case NoRange => p == q
    case AndRange(rest, r) =>
      exists m: nat {:trigger RangesSpelled(src, p, m, rest)} ::
        RangesSpelled(src, p, m, rest) && At(src, m) != ']' && RangeSpelled(src, m, q, r)
  }

  function Sign(op: Repetition): char
  {
    match op case Star => '*' case Plus => '+' case Optional => '?'
  }

  /** The item and the blanks after it. */
  ghost predicate ItemSpelled(src: string, p: nat, q: nat, item: Item, nested: bool)
    decreases item, 0
  {
    match item
    case Literal(chars) =>
      At(src, p) == '"' && exists e: nat {:trigger CharsSpelled(src, p + 1, e, chars)} ::
        CharsSpelled(src, p + 1, e, chars) && At(src, e) == '"' && q == Space(src, e + 1, nested)
    case Class(negated, ranges) =>
      && At(src, p) == '[' && negated == (At(src, p + 1) == '^')
      && exists e: nat {:trigger RangesSpelled(src, if negated then p + 2 else p + 1, e, ranges)} ::
        RangesSpelled(src, if negated then p + 2 else p + 1, e, ranges) && At(src, e) == ']' && q == Space(src, e + 1, nested)
    case Name(name) =>
      p < NameEnd(src, p) <= |src| && name == src[p..NameEnd(src, p)] && q == Space(src, NameEnd(src, p), nested)
    case Group(alts, _) =>
      At(src, p) == '(' && exists e: nat {:trigger AltsSpelled(src, Space(src, p + 1, true), e, alts, true)} ::
        AltsSpelled(src, Space(src, p + 1, true), e, alts, true) && At(src, e) == ')' && q == Space(src, e + 1, nested)
    case Repeat(it, op, _) =>
      exists m: nat {:trigger ItemSpelled(src, p, m, it, nested)} ::
        ItemSpelled(src, p, m, it, nested) && At(src, m) == Sign(op) && q == Space(src, m + 1, nested)
  }

  ghost predicate ItemsSpelled(src: string, p: nat, q: nat, items: Items, nested: bool)
    decreases items, 0
  {
    match items
    case NoItem => p == q
    case AndItem(init, item) =>
      exists m: nat {:trigger ItemsSpelled(src, p, m, init, nested)} ::
        ItemsSpelled(src, p, m, init, nested) && ItemSpelled(src, m, q, item, nested)
  }

  ghost predicate AltsSpelled(src: string, p: nat, q: nat, alts: Alts, nested: bool)
    decreases alts, 0
  {
    match alts
    case OneAlt(items) => ItemsSpelled(src, p, q, items, nested)
    case OrAlt(before, items) =>
      exists m: nat {:trigger AltsSpelled(src, p, m, before, nested)} ::
        AltsSpelled(src, p, m, before, nested) && At(src, m) == '|' && ItemsSpelled(src, Space(src, m + 1, true), q, items, nested)
  }

  /** Whether a sequence ends before the character. */
  predicate EndsSequence(c: char)
  {
    c != '"' && c != '[' && !IsWordChar(c) && c != '(' && c != '*' && c != '+' && c != '?'
  }

  /** After the end of a line, or at the end of the text. */
  function LineEnd(src: string, p: nat): nat
  {
    if At(src, p) == '\r' then if At(src, p + 1) == '\n' then p + 2 else p + 1
    else if At(src, p) == '\n' then p + 1
    else p
  }

  datatype Definition = Definition(name: string, alts: Alts)

  /** The right-hand side of a definition, to the start of the next one. */
  ghost predicate BodySpelled(src: string, p: nat, q: nat, alts: Alts)
  {
    exists e: nat {:trigger AltsSpelled(src, p, e, alts, false)} ::
      && AltsSpelled(src, p, e, alts, false)
      && (At(src, e) == '\r' || At(src, e) == '\n' || At(src, e) == '\0')
      && q == Space(src, LineEnd(src, e), true)
  }

  ghost predicate DefinitionSpelled(src: string, p: nat, q: nat, d: Definition)
  {
    && p < NameEnd(src, p) <= |src| && d.name == src[p..NameEnd(src, p)]
    && var m := Space(src, NameEnd(src, p), false);
    && At(src, m) == ':' && At(src, m + 1) == ':' && At(src, m + 2) == '='
    && BodySpelled(src, Space(src, m + 3, true), q, d.alts)
  }

  ghost predicate GrammarSpelled(src: string, p: nat, q: nat, ds: seq<Definition>)
    decreases |ds|
  {
    if ds == [] then p == q
    else exists m: nat {:trigger GrammarSpelled(src, p, m, ds[..|ds| - 1])} ::
      GrammarSpelled(src, p, m, ds[..|ds| - 1]) && At(src, m) != '\0' && DefinitionSpelled(src, m, q, ds[|ds| - 1])
  }

  /** What each name stands for: the last definition counts. */
  function Meanings(ds: seq<Definition>): Definitions
  {
    if ds == [] then map[] else Meanings(ds[..|ds| - 1])[ds[|ds| - 1].name := ds[|ds| - 1].alts]
  }

  // ----- one more piece -----

  lemma MoreChars(src: string, p: nat, m: nat, q: nat, chars: Word, c: nat)
    requires CharsSpelled(src, p, m, chars) && At(src, m) != '"' && ReadChar(src, m) == Read(c, q)
    ensures CharsSpelled(src, p, q, chars + [c])
  {
    hide ReadChar;
    assert (chars + [c])[..|chars|] == chars;
  }

  lemma MoreRanges(src: string, p: nat, m: nat, q: nat, ranges: Ranges, r: Range)
    requires RangesSpelled(src, p, m, ranges) && At(src, m) != ']' && RangeSpelled(src, m, q, r)
    ensures RangesSpelled(src, p, q, AndRange(ranges, r))
  {
    hide RangeSpelled;
  }

  lemma MoreItems(src: string, p: nat, m: nat, q: nat, items: Items, item: Item, nested: bool)
    requires ItemsSpelled(src, p, m, items, nested) && ItemSpelled(src, m, q, item, nested)
    ensures ItemsSpelled(src, p, q, AndItem(items, item), nested)
  {
    hide ItemSpelled;
  }

  /** A sign after the last item makes it a repetition. */
  lemma RepeatLast(src: string, p: nat, q: nat, init: Items, item: Item, op: Repetition, id: nat, nested: bool)
    requires ItemsSpelled(src, p, q, AndItem(init, item), nested) && At(src, q) == Sign(op)
    ensures ItemsSpelled(src, p, Space(src, q + 1, nested), AndItem(init, Repeat(item, op, id)), nested)
  {
    var m: nat :| ItemsSpelled(src, p, m, init, nested) && ItemSpelled(src, m, q, item, nested);
    assert ItemSpelled(src, m, Space(src, q + 1, nested), Repeat(item, op, id), nested);
  }

  lemma MoreAlts(src: string, p: nat, m: nat, q: nat, alts: Alts, items: Items, nested: bool)
    requires AltsSpelled(src, p, m, alts, nested) && At(src, m) == '|' && ItemsSpelled(src, Space(src, m + 1, true), q, items, nested)
    ensures AltsSpelled(src, p, q, OrAlt(alts, items), nested)
  {
    hide ItemsSpelled;
  }

  lemma MoreDefinitions(src: string, p: nat, m: nat, q: nat, ds: seq<Definition>, d: Definition)
    requires GrammarSpelled(src, p, m, ds) && At(src, m) != '\0' && DefinitionSpelled(src, m, q, d)
    ensures GrammarSpelled(src, p, q, ds + [d]) && Meanings(ds + [d]) == Meanings(ds)[d.name := d.alts]
  {
    hide DefinitionSpelled;
    assert (ds + [d])[..|ds|] == ds;
  }

  lemma NameIsPlain(src: string, p: nat)
    requires p <= |src|
    ensures NameEnd(src, p) <= |src| && '_' !in src[p..NameEnd(src, p)]
  {
    var e := NameEnd(src, p);
    forall k | 0 <= k < e - p ensures src[p..e][k] != '_' {
      assert IsWordChar(At(src, p + k));
    }
  }
}
