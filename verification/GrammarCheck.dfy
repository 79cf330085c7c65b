/** Printing a compiled grammar fails only at the number of a name that is mentioned but never defined. */
module GrammarCheck {
  import opened GrammarForm
  import opened GrammarMeaning
  import opened GrammarLanguage
  import opened GrammarEquivalence
  import opened GrammarState
  import opened GrammarProgram

  predicate IsCharElement(e: Element)
  {
    match e.kind
    case CHAR => true
    case CHAR_NOT => true
    case CHAR_ALT => true
    case CHAR_RNG_UPPER => true
    case _ => false
  }

  predicate IsModifier(e: Element)
  {
    e.kind == CHAR_ALT || e.kind == CHAR_RNG_UPPER
  }

  /** The names by number. */
  ghost predicate NamesOf(ids: Ids, names: map<nat, string>)
  {
    forall k: nat {:trigger k in names} :: k in names <==> k < |ids|
  }

  method NamesByNumber(ids: Ids) returns (names: map<nat, string>)
    requires ValidIds(ids)
    ensures NamesOf(ids, names) && forall k {:trigger names[k]} :: k in names ==> names[k] in ids && ids[names[k]] == k
  {
    names := map[];
    var todo := ids.Keys;
    while todo != {}
      invariant todo <= ids.Keys
      invariant forall k {:trigger names[k]} :: k in names ==> names[k] in ids && ids[names[k]] == k
      invariant forall x {:trigger ids[x]} :: x in ids && x !in todo ==> ids[x] in names
    {
      hide IsMadeName, HasName;
      var x :| x in todo;
      names := names[ids[x] := x];
      todo := todo - {x};
    }
    AllNumbersNamed(ids, names);
  }

  lemma AllNumbersNamed(ids: Ids, names: map<nat, string>)
    requires ValidIds(ids) && forall x {:trigger ids[x]} :: x in ids ==> ids[x] in names
    requires forall k {:trigger names[k]} :: k in names ==> names[k] in ids && ids[names[k]] == k
    ensures NamesOf(ids, names)
  {
    hide IsMadeName;
    forall k: nat {:trigger k in names} ensures k in names <==> k < |ids| {
      assert k < |ids| ==> HasName(ids, k);
      assert k in names ==> ids[names[k]] == k < |ids|;
    }
  }

  /** What printing asks of a rule, when the numbers below `n` have names. */
  ghost predicate Printable(rule: seq<Element>, n: nat)
  {
    rule != [] && rule[|rule| - 1].kind == END && Sound(rule[..|rule| - 1], n)
  }

  /** Prints one rule: every step that can fail. */
  method PrintRule(ids: Ids, ruleId: nat, rule: seq<Element>, names: map<nat, string>) returns (ok: bool)
    requires NamesOf(ids, names)
    ensures ok <==> Printable(rule, |ids|) && ruleId < |ids|
  {
    if rule == [] || rule[|rule| - 1].kind != END {
      return false;
    }
    if ruleId !in names {
      return false;
    }
    ghost var es := rule[..|rule| - 1];
    for i := 0 to |rule| - 1
      invariant forall k {:trigger SoundAt(es, |ids|, k)} :: 0 <= k < i ==> SoundAt(es, |ids|, k)
    {
      var e := rule[i];
      assert es[i] == e && (i > 0 ==> es[i - 1] == rule[i - 1]);
      assert Sound(es, |ids|) ==> SoundAt(es, |ids|, i);
      match e.kind {
        case END => return false;
        case RULE_REF =>
          if e.value !in names {
            return false;
          }
        case CHAR_RNG_UPPER =>
          if i == 0 || !IsCharElement(rule[i - 1]) {
            return false;
          }
        case CHAR_ALT =>
          if i == 0 || !IsCharElement(rule[i - 1]) {
            return false;
          }
        case _ =>
      }
    }
    ok := true;
  }

  /**
   Prints the rules of a compiled grammar in order. It stops at the first number of a name that is mentioned but never
   defined; such names with numbers past the last rule do not disturb it.
   */
  method PrintGrammar(ids: Ids, rules: Rules, ghost defs: Definitions) returns (ok: bool, printed: nat)
    requires ValidState(ids, rules) && Emitted(rules, ids, defs)
    ensures printed <= |rules| && (ok <==> printed == |rules|)
    ensures forall k: nat :: k < printed ==> !OnlyMentioned(ids, defs, k)
    ensures !ok ==> OnlyMentioned(ids, defs, printed)
  {
    hide IsRule, ValidIds, Emitted, OnlyMentioned;
    MissingRules(rules, ids, defs);
    var names := NamesByNumber(ids);
    printed := 0;
    while printed < |rules|
      invariant printed <= |rules| && forall k: nat :: k < printed ==> !OnlyMentioned(ids, defs, k)
    {
      if rules[printed] != [] {
        RuleSound(rules[printed], |ids|);
      }
      ok := PrintRule(ids, printed, rules[printed], names);
      if !ok {
        return;
      }
      printed := printed + 1;
    }
    ok := true;
  }

  // ----- emitted rules pass -----

  /** No end before the end, modifiers only after characters, references only to numbers below `n`. */
  ghost predicate SoundAt(es: seq<Element>, n: nat, k: nat)
    requires k < |es|
  {
    && es[k].kind != END
    && (es[k].kind in {CHAR_ALT, CHAR_RNG_UPPER} ==> k > 0 && es[k - 1].kind in {CHAR, CHAR_NOT, CHAR_ALT, CHAR_RNG_UPPER})
    && (es[k].kind == RULE_REF ==> es[k].value < n)
  }

  ghost predicate Sound(es: seq<Element>, n: nat)
  {
    forall k {:trigger SoundAt(es, n, k)} :: 0 <= k < |es| ==> SoundAt(es, n, k)
  }

  ghost predicate EndsInChar(es: seq<Element>)
  {
    es != [] && IsCharElement(es[|es| - 1])
  }

  lemma SoundMore(es: seq<Element>, n: nat, e: Element)
    requires Sound(es, n) && e.kind != END && (IsModifier(e) ==> EndsInChar(es)) && (e.kind == RULE_REF ==> e.value < n)
    ensures Sound(es + [e], n) && (IsCharElement(e) ==> EndsInChar(es + [e]))
  {
    forall k | 0 <= k < |es + [e]| ensures SoundAt(es + [e], n, k) {
      if k < |es| {
        assert SoundAt(es, n, k);
      }
    }
  }

  lemma SoundRange(es: seq<Element>, n: nat, kind: Kind, r: Range)
    requires Sound(es, n) && (kind == CHAR || kind == CHAR_NOT || (kind == CHAR_ALT && EndsInChar(es)))
    ensures Sound(es + RangeElements(kind, r), n) && EndsInChar(es + RangeElements(kind, r))
  {
    hide Sound, EndsInChar;
    match r
    case One(c) => SoundMore(es, n, Element(kind, c));
    case Span(lo, hi) =>
      SoundMore(es, n, Element(kind, lo));
      SoundMore(es + [Element(kind, lo)], n, Element(CHAR_RNG_UPPER, hi));
      assert es + [Element(kind, lo)] + [Element(CHAR_RNG_UPPER, hi)] == es + RangeElements(kind, r);
  }

  lemma {:induction false} SoundClass(es: seq<Element>, n: nat, negated: bool, ranges: Ranges)
    requires Sound(es, n)
    ensures Sound(es + ClassElements(negated, ranges), n)
    ensures ranges.AndRange? ==> EndsInChar(es + ClassElements(negated, ranges))
  {
    hide Sound, EndsInChar, RangeElements;
    match ranges
    case NoRange => assert es + [] == es;
    case AndRange(rest, r) =>
      SoundClass(es, n, negated, rest);
      SoundRange(es + ClassElements(negated, rest), n, if rest.NoRange? then StartKind(negated) else CHAR_ALT, r);
      Regroup(es, ClassElements(negated, rest), RangeElements(if rest.NoRange? then StartKind(negated) else CHAR_ALT, r));
  }

  lemma {:induction false} SoundSequence(es: seq<Element>, n: nat, syms: Symbols)
    requires Sound(es, n) && SymbolsBelow(syms, n)
    ensures Sound(es + SequenceElements(syms), n)
  {
    hide Sound, ClassElements;
    match syms
    case Nothing => assert es + [] == es;
    case Then(init, sym) =>
      SoundSequence(es, n, init);
      var mid := es + SequenceElements(init);
      Regroup(es, SequenceElements(init), SymbolElements(sym));
      match sym {
        case Chars(negated, ranges) => SoundClass(mid, n, negated, ranges);
        case Ref(id) => SoundMore(mid, n, Element(RULE_REF, id));
      }
  }

  lemma {:induction false} SoundAlternatives(n: nat, alts: Alternatives)
    requires RefsBelow(alts, n)
    ensures Sound(AlternativeElements(alts), n)
  {
    match alts
    case Only(syms) =>
      SoundSequence([], n, syms);
      assert [] + SequenceElements(syms) == SequenceElements(syms);
    case Or(before, syms) =>
      SoundAlternatives(n, before);
      hide Sound, SequenceElements;
      SoundMore(AlternativeElements(before), n, Element(ALT, 0));
      SoundSequence(AlternativeElements(before) + [Element(ALT, 0)], n, syms);
  }

  lemma RuleSound(rule: seq<Element>, n: nat)
    requires IsRule(rule, n)
    ensures Printable(rule, n)
  {
    hide Sound;
    var alts :| rule == RuleElements(alts) && WellFormed(alts) && RefsBelow(alts, n);
    SoundAlternatives(n, alts);
    assert rule[..|rule| - 1] == AlternativeElements(alts);
  }
}
